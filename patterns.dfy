/** The three regular expressions of parse.py, written out as string functions.
    Each is used with Python's `re.match`, which anchors at the start of the
    field but not at its end. */
module Patterns {
  import opened Optional
  import opened Text

  const UniprotPrefix: string := "uniprotkb:"
  const GeneNameSuffix: string := "(gene name)"

  /** `RX_UNIPROT.match(f).group(1)` for `uniprotkb:(.+)`: the prefix, then the
      longest run of characters other than a newline (Python's `.`), at least one. */
  function MatchUniprot(f: string): (m: Option<string>)
    ensures m.Some? ==>
      && |m.value| >= 1
      && '\n' !in m.value
      && |f| >= 10 + |m.value|
      && f == UniprotPrefix + m.value + f[10 + |m.value|..]
      && (|f| == 10 + |m.value| || f[10 + |m.value|] == '\n')
  {
    if |f| >= 10 && f[..10] == UniprotPrefix then
      var rest := f[10..];
      var n := Find(rest, '\n');
      if n >= 1 then
        assert f == UniprotPrefix + rest[..n] + f[10 + n..];
        Some(rest[..n])
      else None
    else None
  }

  /** Every field the pattern accepts yields the group the pattern describes. */
  lemma UniprotMatches(g: string, tail: string)
    requires |g| >= 1 && '\n' !in g
    requires tail == [] || tail[0] == '\n'
    ensures MatchUniprot(UniprotPrefix + g + tail) == Some(g)
  {
    var f := UniprotPrefix + g + tail;
    assert f[..10] == UniprotPrefix;
    assert f[10..] == g + tail;
    FindAfter(g, tail, '\n');
    assert (g + tail)[..|g|] == g;
  }

  /** `RX_GENE_NAME.match(f).group(1)` for `uniprotkb:([^)]*)\(gene name\)`: the
      prefix, a run free of `)` (possibly empty), then the literal `(gene name)`. */
  function MatchGeneName(f: string): (m: Option<string>)
    ensures m.Some? ==>
      && ')' !in m.value
      && |f| >= 21 + |m.value|
      && f == UniprotPrefix + m.value + GeneNameSuffix + f[21 + |m.value|..]
  {
    if |f| >= 10 && f[..10] == UniprotPrefix then
      var rest := f[10..];
      var p := Find(rest, ')');
      if p < |rest| && p >= 10 && rest[p - 10..p + 1] == GeneNameSuffix then
        assert f == UniprotPrefix + rest[..p - 10] + GeneNameSuffix + f[21 + (p - 10)..];
        Some(rest[..p - 10])
      else None
    else None
  }

  /** Every field of the form `uniprotkb:<name>(gene name)...` with `)`-free name yields that name. */
  lemma GeneNameMatches(g: string, tail: string)
    requires ')' !in g
    ensures MatchGeneName(UniprotPrefix + g + GeneNameSuffix + tail) == Some(g)
  {
    var f := UniprotPrefix + g + GeneNameSuffix + tail;
    var rest := g + GeneNameSuffix + tail;
    PrefixRest(g + GeneNameSuffix + tail);
    assert f == UniprotPrefix + rest;
    GeneNameClose(g, tail);
    assert rest[..|g|] == g;
  }

  /** What follows the prefix. */
  lemma PrefixRest(rest: string)
    ensures (UniprotPrefix + rest)[..10] == UniprotPrefix
    ensures (UniprotPrefix + rest)[10..] == rest
  {
  }

  /** The first `)` after a `)`-free name is the one closing `(gene name)`. */
  lemma GeneNameClose(g: string, tail: string)
    requires ')' !in g
    ensures Find(g + GeneNameSuffix + tail, ')') == |g| + 10
    ensures (g + GeneNameSuffix + tail)[|g|..|g| + 11] == GeneNameSuffix
  {
    var open := GeneNameSuffix[..10];
    assert ')' !in open;
    assert g + GeneNameSuffix + tail == (g + open) + ([')'] + tail);
    FindAfter(g + open, [')'] + tail, ')');
  }

  /** `f` reads `h(g)` followed by anything, with `h` non-empty and free of `(`
      and `g` non-empty and free of `)`. */
  predicate InteractShape(f: string, h: string, g: string)
  {
    && |h| >= 1 && '(' !in h
    && |g| >= 1 && ')' !in g
    && |f| >= |h| + |g| + 2
    && f == h + "(" + g + ")" + f[|h| + |g| + 2..]
  }

  /** `RX_INTERACT.match(f).group(1)` for `[^(]+\(([^)]+)\)`: a non-empty run free
      of `(`, an opening parenthesis, a non-empty run free of `)`, a closing one. */
  function MatchInteract(f: string): (m: Option<string>)
    ensures m.Some? ==> exists h :: InteractShape(f, h, m.value)
  {
    var q := Find(f, '(');
    if 1 <= q < |f| then
      var rest := f[q + 1..];
      var c := Find(rest, ')');
      if 1 <= c < |rest| then
        InteractCut(f, q, rest, c);
        Some(rest[..c])
      else None
    else None
  }

  /** Cutting `f` at its first `(` and the first `)` after it gives the shape the pattern describes. */
  lemma InteractCut(f: string, q: nat, rest: string, c: nat)
    requires 1 <= q < |f| && f[q] == '(' && forall j :: 0 <= j < q ==> f[j] != '('
    requires rest == f[q + 1..]
    requires 1 <= c < |rest| && rest[c] == ')' && forall j :: 0 <= j < c ==> rest[j] != ')'
    ensures InteractShape(f, f[..q], rest[..c])
  {
    var h := f[..q];
    var g := rest[..c];
    assert '(' !in h by {
      assert forall j :: 0 <= j < q ==> h[j] == f[j];
    }
    assert ')' !in g by {
      assert forall j :: 0 <= j < c ==> g[j] == rest[j];
    }
    assert f == h + "(" + g + ")" + f[q + c + 2..];
  }

  /** Every field the pattern accepts yields the group the pattern describes. */
  lemma InteractMatches(h: string, g: string, tail: string)
    requires |h| >= 1 && '(' !in h
    requires |g| >= 1 && ')' !in g
    ensures MatchInteract(h + "(" + g + ")" + tail) == Some(g)
  {
    var f := h + "(" + g + ")" + tail;
    assert f == h + ("(" + g + ")" + tail);
    FindAfter(h, "(" + g + ")" + tail, '(');
    var rest := f[|h| + 1..];
    assert rest == g + (")" + tail);
    FindAfter(g, ")" + tail, ')');
    assert rest[..|g|] == g;
  }

  /** Whatever follows a field that already matches is never looked at. */
  lemma InteractIgnoresSuffix(t: string, u: string)
    requires MatchInteract(t).Some?
    ensures MatchInteract(t + u) == MatchInteract(t)
  {
    var g := MatchInteract(t).value;
    var h :| InteractShape(t, h, g);
    var x := h + "(" + g + ")";
    var tail := t[|h| + |g| + 2..];
    assert t == x + tail;
    ConcatAssoc(x, tail, u);
    InteractMatches(h, g, tail + u);
  }
}
