/** parse.py: detection-method extraction (`get_interact`), the per-row
    accumulation of `main` into `n_not_human`, `problems`, `ppi` and `syms`, and
    the row order of the edge file written by `write_ppi`. */
module PpiParse {
  import opened Optional
  import opened Text
  import opened Patterns
  import opened Resolver

  /** The taxon tag both interactors of a kept row must carry. */
  const Human: string := "taxid:9606(Homo sapiens)"

  // ---------------------------------------------------------------------------
  // get_interact
  // ---------------------------------------------------------------------------

  /** What `get_interact(field)` returns: the group of `RX_INTERACT` matched
      against the whole field, or nothing. */
  function Labels(field: string): (r: set<string>)
    ensures |r| <= 1
    ensures r == {} <==> MatchInteract(field).None?
    ensures forall x :: x in r ==> MatchInteract(field) == Some(x)
  {
    match MatchInteract(field)
    case Some(g) => {g}
    case None => {}
  }

  /** `get_interact(s)`: one pass per `|`-separated token, each of which matches the
      pattern against the whole field `s`, not against the token. */
  method GetInteract(s: string) returns (r: set<string>)
    ensures r == Labels(s)
  {
    r := {};
    var tokens := Split(s, '|');
    for i := 0 to |tokens|
      invariant r == if i == 0 then {} else Labels(s)
    {
      var m := MatchInteract(s);
      if m.Some? {
        r := r + {m.value};
      }
    }
  }

  /** The label of the first `code(label)` is the only one reported, whatever follows it. */
  lemma LabelsFirstCodeOnly(h: string, g: string, rest: string)
    requires |h| >= 1 && '(' !in h
    requires |g| >= 1 && ')' !in g
    ensures Labels(h + "(" + g + ")" + rest) == {g}
  {
    InteractMatches(h, g, rest);
  }

  /** A field without a `code(label)` (such as `-`) yields no method. */
  lemma LabelsOfDash()
    ensures Labels("-") == {}
  {
    assert Find("-", '(') == 1;
  }

  /** Two `|`-separated methods still yield only the first label. */
  lemma LabelsTwoMethods()
    ensures Labels("MI:4(ac)|MI:18(th)") == {"ac"}
  {
    var h, g, rest := "MI:4", "ac", "|MI:18(th)";
    assert h + "(" + g + ")" + rest == "MI:4(ac)|MI:18(th)";
    assert h[0] != '(' && h[1] != '(' && h[2] != '(' && h[3] != '(';
    assert g[0] != ')' && g[1] != ')';
    LabelsFirstCodeOnly(h, g, rest);
  }

  // ---------------------------------------------------------------------------
  // The accumulators of main and one row's effect on them
  // ---------------------------------------------------------------------------

  /** The four accumulators of `main`'s loop. */
  datatype Accum = Accum(
    nNotHuman: nat,
    problems: map<string, set<nat>>,
    ppi: map<string, set<string>>,
    syms: set<string>)

  const Empty: Accum := Accum(0, map[], map[], {})

  /** `sorted((a, b))` for two strings. */
  function SortPair(a: string, b: string): (p: seq<string>)
    ensures p == [a, b] || p == [b, a]
    ensures !Less(p[1], p[0])
  {
    if Less(b, a) then
      LessAsymmetric(a, b);
      [b, a]
    else [a, b]
  }

  /** `";".join(sorted((a, b)))`: the key of the undirected edge between `a` and `b`. */
  function EdgeKey(a: string, b: string): (k: string)
    ensures k == a + ";" + b || k == b + ";" + a
  {
    var p := SortPair(a, b);
    JoinPair(p[0], p[1], ';');
    assert p == [p[0], p[1]];
    Join(p, ';')
  }

  /** The key does not depend on which interactor came first. */
  lemma EdgeKeySymmetric(a: string, b: string)
    ensures EdgeKey(a, b) == EdgeKey(b, a)
  {
    LessTotal(a, b);
    LessAsymmetric(a, b);
  }

  /** `"%s;%s;%s" % (prot, sym, alias)`: the key of an unresolved interactor. */
  function ProblemKey(prot: string, sym: string, alias: string): string
  {
    prot + ";" + sym + ";" + alias
  }

  /** `problems.setdefault(key, set()).add(linenum)`. */
  function AddLine(problems: map<string, set<nat>>, key: string, linenum: nat): (r: map<string, set<nat>>)
    ensures r.Keys == problems.Keys + {key}
    ensures r[key] == (if key in problems then problems[key] else {}) + {linenum}
    ensures forall k :: k in problems && k != key ==> r[k] == problems[k]
  {
    problems[key := (if key in problems then problems[key] else {}) + {linenum}]
  }

  /** `ppi.setdefault(key, set()).update(methods)`. */
  function Merge(ppi: map<string, set<string>>, key: string, methods: set<string>): (r: map<string, set<string>>)
    ensures r.Keys == ppi.Keys + {key}
    ensures r[key] == (if key in ppi then ppi[key] else {}) + methods
    ensures forall k :: k in ppi && k != key ==> r[k] == ppi[k]
  {
    ppi[key := (if key in ppi then ppi[key] else {}) + methods]
  }

  /** Adding the same methods under the same key a second time changes nothing. */
  lemma MergeIdempotent(ppi: map<string, set<string>>, key: string, methods: set<string>)
    ensures Merge(Merge(ppi, key, methods), key, methods) == Merge(ppi, key, methods)
  {
    var once := Merge(ppi, key, methods);
    var twice := Merge(once, key, methods);
    assert twice.Keys == once.Keys;
    assert twice[key] == once[key];
  }

  /** The row's taxon columns pass the filter: both present, equal, and human. */
  predicate IsHumanRow(row: seq<string>)
    requires |row| >= 11
  {
    row[9] == row[10] && row[9] == Human
  }

  /** Interactor A of the row resolved by `get_sym`, with `allow_miss` at its default. */
  function GeneA(H: SymbolTable, row: seq<string>): Option<string>
    requires |row| >= 11
  {
    GetSym(H, row[0], row[2], row[4], true)
  }

  /** Interactor B of the row resolved by `get_sym`, with `allow_miss` at its default. */
  function GeneB(H: SymbolTable, row: seq<string>): Option<string>
    requires |row| >= 11
  {
    GetSym(H, row[1], row[3], row[5], true)
  }

  /** The effect of a row that passed the taxon filter, once its interactors are
      resolved to `geneA` and `geneB` (`keyA`, `keyB` being their raw triples). */
  function Record(acc: Accum, geneA: Option<string>, geneB: Option<string>, interact: set<string>,
                  keyA: string, keyB: string, linenum: nat): Accum
  {
    var syms := acc.syms + (if Truthy(geneA) then {geneA.value} else {})
                         + (if Truthy(geneB) then {geneB.value} else {});
    if !Truthy(geneA) then acc.(syms := syms, problems := AddLine(acc.problems, keyA, linenum))
    else if !Truthy(geneB) then acc.(syms := syms, problems := AddLine(acc.problems, keyB, linenum))
    else acc.(syms := syms, ppi := Merge(acc.ppi, EdgeKey(geneA.value, geneB.value), interact))
  }

  /** One iteration of `main`'s loop over the row at line `linenum`. */
  function Step(H: SymbolTable, acc: Accum, row: seq<string>, linenum: nat): Accum
    requires |row| >= 11
  {
    if !IsHumanRow(row) then acc.(nNotHuman := acc.nNotHuman + 1)
    else Record(acc, GeneA(H, row), GeneB(H, row), Labels(row[6]),
                ProblemKey(row[0], row[2], row[4]), ProblemKey(row[1], row[3], row[5]), linenum)
  }

  ghost predicate WellSized(rows: seq<seq<string>>)
  {
    forall k :: 0 <= k < |rows| ==> |rows[k]| >= 11
  }

  /** The accumulators after the data rows `rows`; the row at index k is line k + 2
      of the file (line 1 is the header). */
  function Scan(H: SymbolTable, rows: seq<seq<string>>): Accum
    requires WellSized(rows)
  {
    if rows == [] then Empty
    else Step(H, Scan(H, rows[..|rows| - 1]), rows[|rows| - 1], |rows| + 1)
  }

  /** The row loop of `main`, updating its accumulators in place. */
  method ParseRows(H: SymbolTable, rows: seq<seq<string>>)
    returns (nNotHuman: nat, problems: map<string, set<nat>>, ppi: map<string, set<string>>, syms: set<string>)
    requires WellSized(rows)
    ensures Accum(nNotHuman, problems, ppi, syms) == Scan(H, rows)
  {
    nNotHuman, problems, ppi, syms := 0, map[], map[], {};
    for i := 0 to |rows|
      invariant Accum(nNotHuman, problems, ppi, syms) == Scan(H, rows[..i])
    {
      ghost var before := Accum(nNotHuman, problems, ppi, syms);
      assert rows[..i + 1][..i] == rows[..i];
      assert Scan(H, rows[..i + 1]) == Step(H, before, rows[i], i + 2);
      var linenum := i + 2;
      var row := rows[i];
      var prot1, prot2 := row[0], row[1];
      var sym1, sym2 := row[2], row[3];
      var alias1, alias2 := row[4], row[5];
      var tax1, tax2 := row[9], row[10];
      if tax1 != tax2 || tax1 != Human {
        nNotHuman := nNotHuman + 1;
        continue;
      }

      var geneA := GetSym(H, prot1, sym1, alias1, true);
      var geneB := GetSym(H, prot2, sym2, alias2, true);
      var interact := GetInteract(row[6]);

      if Truthy(geneA) { syms := syms + {geneA.value}; }
      if Truthy(geneB) { syms := syms + {geneB.value}; }
      if !Truthy(geneA) {
        problems := AddLine(problems, ProblemKey(prot1, sym1, alias1), linenum);
      } else if !Truthy(geneB) {
        problems := AddLine(problems, ProblemKey(prot2, sym2, alias2), linenum);
      } else {
        var key := EdgeKey(geneA.value, geneB.value);
        ppi := Merge(ppi, key, interact);
      }
      assert Accum(nNotHuman, problems, ppi, syms)
          == Record(before, geneA, geneB, interact, ProblemKey(prot1, sym1, alias1), ProblemKey(prot2, sym2, alias2), linenum);
    }
    assert rows[..|rows|] == rows;
  }

  // ---------------------------------------------------------------------------
  // Properties of one row
  // ---------------------------------------------------------------------------

  /** A row that fails the taxon filter only bumps the counter. */
  lemma NotHumanRowSkipped(H: SymbolTable, acc: Accum, row: seq<string>, linenum: nat)
    requires |row| >= 11 && (row[9] != row[10] || row[9] != Human)
    ensures Step(H, acc, row, linenum) == acc.(nNotHuman := acc.nNotHuman + 1)
  {
  }

  /** A resolution failure adds no edge; the line is filed under A's raw triple when A
      failed (even if B failed too), otherwise under B's. */
  lemma UnresolvedRowLogged(H: SymbolTable, acc: Accum, row: seq<string>, linenum: nat)
    requires |row| >= 11 && IsHumanRow(row)
    requires !Truthy(GeneA(H, row)) || !Truthy(GeneB(H, row))
    ensures Step(H, acc, row, linenum).ppi == acc.ppi
    ensures Step(H, acc, row, linenum).nNotHuman == acc.nNotHuman
    ensures Step(H, acc, row, linenum).syms ==
      acc.syms + (if Truthy(GeneA(H, row)) then {GeneA(H, row).value} else {})
               + (if Truthy(GeneB(H, row)) then {GeneB(H, row).value} else {})
    ensures !Truthy(GeneA(H, row)) ==>
      Step(H, acc, row, linenum).problems == AddLine(acc.problems, ProblemKey(row[0], row[2], row[4]), linenum)
    ensures Truthy(GeneA(H, row)) ==>
      Step(H, acc, row, linenum).problems == AddLine(acc.problems, ProblemKey(row[1], row[3], row[5]), linenum)
  {
  }

  /** The row with its two interactors exchanged: columns 0/1, 2/3, 4/5 and 9/10. */
  function SwapInteractors(row: seq<string>): (r: seq<string>)
    requires |row| >= 11
    ensures |r| == |row|
  {
    row[0 := row[1]][1 := row[0]][2 := row[3]][3 := row[2]][4 := row[5]][5 := row[4]][9 := row[10]][10 := row[9]]
  }

  lemma RecordSwapped(acc: Accum, a: Option<string>, b: Option<string>, m: set<string>,
                                         keyA: string, keyB: string, linenum: nat)
    requires Truthy(a) && Truthy(b)
    ensures Record(acc, b, a, m, keyB, keyA, linenum) == Record(acc, a, b, m, keyA, keyB, linenum)
  {
    EdgeKeySymmetric(a.value, b.value);
  }

  /** Listing the interactors in the other order feeds the same edge. */
  lemma SwappedRowSameEdge(H: SymbolTable, acc: Accum, row: seq<string>, linenum: nat)
    requires |row| >= 11
    requires Truthy(GeneA(H, row)) && Truthy(GeneB(H, row))
    ensures Step(H, acc, SwapInteractors(row), linenum) == Step(H, acc, row, linenum)
  {
    var s := SwapInteractors(row);
    assert s[0] == row[1] && s[2] == row[3] && s[4] == row[5];
    assert s[1] == row[0] && s[3] == row[2] && s[5] == row[4];
    assert s[6] == row[6] && s[9] == row[10] && s[10] == row[9];
    assert IsHumanRow(s) == IsHumanRow(row);
    assert GeneA(H, s) == GeneB(H, row) && GeneB(H, s) == GeneA(H, row);
    RecordSwapped(acc, GeneA(H, row), GeneB(H, row), Labels(row[6]),
                  ProblemKey(row[0], row[2], row[4]), ProblemKey(row[1], row[3], row[5]), linenum);
  }

  /** Ingesting the same row twice leaves `ppi` as ingesting it once. */
  lemma StepTwiceSamePpi(H: SymbolTable, acc: Accum, row: seq<string>, l1: nat, l2: nat)
    requires |row| >= 11
    ensures Step(H, Step(H, acc, row, l1), row, l2).ppi == Step(H, acc, row, l1).ppi
  {
    if IsHumanRow(row) && Truthy(GeneA(H, row)) && Truthy(GeneB(H, row)) {
      MergeIdempotent(acc.ppi, EdgeKey(GeneA(H, row).value, GeneB(H, row).value), Labels(row[6]));
    }
  }

  // ---------------------------------------------------------------------------
  // Properties of the whole scan
  // ---------------------------------------------------------------------------

  /** `after` keeps every key of `before` and every method under it. */
  ghost predicate PpiGrows(before: map<string, set<string>>, after: map<string, set<string>>)
  {
    forall k :: k in before ==> k in after && before[k] <= after[k]
  }

  /** `after` keeps every problem key and every line number under it. */
  ghost predicate ProblemsGrow(before: map<string, set<nat>>, after: map<string, set<nat>>)
  {
    forall k :: k in before ==> k in after && before[k] <= after[k]
  }

  /** `after` extends `before` in every accumulator. */
  ghost predicate Grows(before: Accum, after: Accum)
  {
    && PpiGrows(before.ppi, after.ppi)
    && ProblemsGrow(before.problems, after.problems)
    && before.syms <= after.syms
    && before.nNotHuman <= after.nNotHuman
  }

  lemma GrowsTransitive(a: Accum, b: Accum, c: Accum)
    requires Grows(a, b) && Grows(b, c)
    ensures Grows(a, c)
  {
  }

  lemma RecordGrows(acc: Accum, geneA: Option<string>, geneB: Option<string>, interact: set<string>,
                    keyA: string, keyB: string, linenum: nat)
    ensures Grows(acc, Record(acc, geneA, geneB, interact, keyA, keyB, linenum))
  {
    var next := Record(acc, geneA, geneB, interact, keyA, keyB, linenum);
    if !Truthy(geneA) || !Truthy(geneB) {
      assert next.ppi == acc.ppi;
      var key := if !Truthy(geneA) then keyA else keyB;
      assert next.problems == AddLine(acc.problems, key, linenum);
    } else {
      assert next.problems == acc.problems;
    }
  }

  lemma StepGrows(H: SymbolTable, acc: Accum, row: seq<string>, linenum: nat)
    requires |row| >= 11
    ensures Grows(acc, Step(H, acc, row, linenum))
  {
    if IsHumanRow(row) {
      RecordGrows(acc, GeneA(H, row), GeneB(H, row), Labels(row[6]),
                  ProblemKey(row[0], row[2], row[4]), ProblemKey(row[1], row[3], row[5]), linenum);
    }
  }

  lemma ScanLastGrows(H: SymbolTable, rows: seq<seq<string>>)
    requires WellSized(rows) && rows != []
    ensures Grows(Scan(H, rows[..|rows| - 1]), Scan(H, rows))
  {
    StepGrows(H, Scan(H, rows[..|rows| - 1]), rows[|rows| - 1], |rows| + 1);
  }

  /** Reading more rows never loses an edge, a method, a problem line or a symbol. */
  lemma {:induction false} ScanGrows(H: SymbolTable, rows: seq<seq<string>>, i: nat)
    requires WellSized(rows) && i <= |rows|
    ensures Grows(Scan(H, rows[..i]), Scan(H, rows))
    decreases |rows|
  {
    if i < |rows| {
      var front := rows[..|rows| - 1];
      assert rows[..i] == front[..i];
      ScanGrows(H, front, i);
      ScanLastGrows(H, rows);
      GrowsTransitive(Scan(H, rows[..i]), Scan(H, front), Scan(H, rows));
    } else {
      assert rows[..i] == rows;
    }
  }

  /** `k` is the edge key of two truthy symbols of `syms`. */
  ghost predicate ResolvedKey(k: string, syms: set<string>)
  {
    exists a, b :: a in syms && b in syms && a != "" && b != "" && EdgeKey(a, b) == k
  }

  /** Every `ppi` key joins two resolved, truthy symbols that are in `syms`. */
  ghost predicate KeysResolved(acc: Accum)
  {
    forall k :: k in acc.ppi ==> ResolvedKey(k, acc.syms)
  }

  lemma RecordKeysResolved(acc: Accum, geneA: Option<string>, geneB: Option<string>, interact: set<string>,
                           keyA: string, keyB: string, linenum: nat)
    requires KeysResolved(acc)
    ensures KeysResolved(Record(acc, geneA, geneB, interact, keyA, keyB, linenum))
  {
    var next := Record(acc, geneA, geneB, interact, keyA, keyB, linenum);
    assert acc.syms <= next.syms;
    forall k | k in next.ppi
      ensures ResolvedKey(k, next.syms)
    {
      if k in acc.ppi {
        var a, b :| a in acc.syms && b in acc.syms && a != "" && b != "" && EdgeKey(a, b) == k;
        assert a in next.syms && b in next.syms;
      } else {
        assert geneA.value in next.syms && geneB.value in next.syms;
        assert EdgeKey(geneA.value, geneB.value) == k;
      }
    }
  }

  lemma StepKeysResolved(H: SymbolTable, acc: Accum, row: seq<string>, linenum: nat)
    requires |row| >= 11 && KeysResolved(acc)
    ensures KeysResolved(Step(H, acc, row, linenum))
  {
    if IsHumanRow(row) {
      RecordKeysResolved(acc, GeneA(H, row), GeneB(H, row), Labels(row[6]),
                         ProblemKey(row[0], row[2], row[4]), ProblemKey(row[1], row[3], row[5]), linenum);
    }
  }

  lemma {:induction false} ScanKeysResolved(H: SymbolTable, rows: seq<seq<string>>)
    requires WellSized(rows)
    ensures KeysResolved(Scan(H, rows))
    decreases |rows|
  {
    if rows != [] {
      ScanKeysResolved(H, rows[..|rows| - 1]);
      StepKeysResolved(H, Scan(H, rows[..|rows| - 1]), rows[|rows| - 1], |rows| + 1);
    }
  }

  // ---------------------------------------------------------------------------
  // write_ppi
  // ---------------------------------------------------------------------------

  /** One line of the edge file: `Gene A`, `Gene B` and the set of methods. */
  datatype EdgeRow = EdgeRow(geneA: string, geneB: string, methods: set<string>)

  /** The key a row was split from. */
  function RowKey(row: EdgeRow): string
  {
    row.geneA + ";" + row.geneB
  }

  /** A key that splits in two is its two pieces joined by the separator. */
  lemma TwoParts(k: string)
    requires |Split(k, ';')| == 2
    ensures Split(k, ';')[0] + ";" + Split(k, ';')[1] == k
    ensures ';' !in Split(k, ';')[0] && ';' !in Split(k, ';')[1]
  {
    var parts := Split(k, ';');
    JoinSplit(k, ';');
    SplitPiecesFree(k, ';');
    JoinPair(parts[0], parts[1], ';');
    assert parts == [parts[0], parts[1]];
  }

  /** Every key splits into exactly two pieces, so `a,b = pair.split(';')` succeeds. */
  predicate AllSplitInTwo(keys: seq<string>)
  {
    forall i :: 0 <= i < |keys| ==> |Split(keys[i], ';')| == 2
  }

  lemma PrefixSplitsInTwo(keys: seq<string>, n: nat)
    requires AllSplitInTwo(keys) && n <= |keys|
    ensures AllSplitInTwo(keys[..n])
  {
    forall i | 0 <= i < n
      ensures |Split(keys[..n][i], ';')| == 2
    {
      assert keys[..n][i] == keys[i];
    }
  }

  /** The line written for `key`. */
  function LineFor(ppi: map<string, set<string>>, key: string): EdgeRow
    requires key in ppi && |Split(key, ';')| == 2
  {
    var parts := Split(key, ';');
    EdgeRow(parts[0], parts[1], ppi[key])
  }

  /** The lines for `keys`, in order. */
  function Lines(ppi: map<string, set<string>>, keys: seq<string>): (r: seq<EdgeRow>)
    requires AllSplitInTwo(keys) && forall k :: k in keys ==> k in ppi
    ensures |r| == |keys|
  {
    if keys == [] then []
    else
      var front := keys[..|keys| - 1];
      PrefixSplitsInTwo(keys, |keys| - 1);
      assert forall k :: k in front ==> k in keys;
      Lines(ppi, front) + [LineFor(ppi, keys[|keys| - 1])]
  }

  /** Line `i` is the line of key `i`. */
  lemma {:induction false} LinesAt(ppi: map<string, set<string>>, keys: seq<string>, i: nat)
    requires AllSplitInTwo(keys) && (forall k :: k in keys ==> k in ppi) && i < |keys|
    ensures Lines(ppi, keys)[i] == LineFor(ppi, keys[i])
    decreases |keys|
  {
    if i < |keys| - 1 {
      var front := keys[..|keys| - 1];
      PrefixSplitsInTwo(keys, |keys| - 1);
      assert forall k :: k in front ==> k in keys;
      LinesAt(ppi, front, i);
      assert front[i] == keys[i];
    }
  }

  /** One more key that splits in two adds its line. */
  lemma LinesStep(ppi: map<string, set<string>>, keys: seq<string>, n: nat)
    requires n < |keys| && forall k :: k in keys ==> k in ppi
    requires AllSplitInTwo(keys[..n]) && |Split(keys[n], ';')| == 2
    ensures AllSplitInTwo(keys[..n + 1])
    ensures Lines(ppi, keys[..n + 1]) == Lines(ppi, keys[..n]) + [LineFor(ppi, keys[n])]
  {
    var next := keys[..n + 1];
    assert next[..n] == keys[..n] && next[n] == keys[n];
    forall i | 0 <= i < n + 1
      ensures |Split(next[i], ';')| == 2
    {
      if i < n {
        assert next[i] == keys[..n][i];
      }
    }
  }

  /** The lines `write_ppi` writes after its header, one per key of `sorted(ppi)`;
      `None` stands for the `ValueError` raised by a key that does not split in two. */
  function WriteRows(ppi: map<string, set<string>>): Option<seq<EdgeRow>>
  {
    var keys := Sorted(ppi.Keys);
    if AllSplitInTwo(keys) then Some(Lines(ppi, keys)) else None
  }

  /** The loop of `write_ppi`, collecting the lines instead of printing them. */
  method WritePpi(ppi: map<string, set<string>>) returns (out: Option<seq<EdgeRow>>)
    ensures out == WriteRows(ppi)
  {
    var keys := Sorted(ppi.Keys);
    assert forall i :: 0 <= i < |keys| ==> keys[i] in ppi;
    var lines: seq<EdgeRow> := [];
    for n := 0 to |keys|
      invariant AllSplitInTwo(keys[..n])
      invariant lines == Lines(ppi, keys[..n])
    {
      var parts := Split(keys[n], ';');
      if |parts| != 2 {
        assert !AllSplitInTwo(keys);
        return None;
      }
      LinesStep(ppi, keys, n);
      lines := lines + [EdgeRow(parts[0], parts[1], ppi[keys[n]])];
    }
    assert keys[..|keys|] == keys;
    return Some(lines);
  }

  /** `write_ppi` fails exactly when some key does not split in two. */
  lemma WriteRowsFails(ppi: map<string, set<string>>)
    ensures WriteRows(ppi).Some? <==> forall k :: k in ppi ==> |Split(k, ';')| == 2
  {
    var keys := Sorted(ppi.Keys);
    if WriteRows(ppi).Some? {
      forall k | k in ppi
        ensures |Split(k, ';')| == 2
      {
        assert k in keys;
      }
    } else {
      var i :| 0 <= i < |keys| && |Split(keys[i], ';')| != 2;
      assert keys[i] in ppi;
    }
  }

  /** Otherwise it writes one line per edge, in increasing key order. */
  lemma WriteRowsOrdered(ppi: map<string, set<string>>)
    requires WriteRows(ppi).Some?
    ensures |WriteRows(ppi).value| == |ppi|
    ensures forall i, j :: 0 <= i < j < |WriteRows(ppi).value| ==>
      Less(RowKey(WriteRows(ppi).value[i]), RowKey(WriteRows(ppi).value[j]))
  {
    var keys := Sorted(ppi.Keys);
    assert WriteRows(ppi).value == Lines(ppi, keys);
    assert |keys| == |ppi.Keys|;
    LinesKeys(ppi, keys);
  }

  /** Every line names an edge and carries the methods stored under it. */
  lemma WriteRowsMethods(ppi: map<string, set<string>>)
    requires WriteRows(ppi).Some?
    ensures forall i :: 0 <= i < |WriteRows(ppi).value| ==>
      RowKey(WriteRows(ppi).value[i]) in ppi
      && WriteRows(ppi).value[i].methods == ppi[RowKey(WriteRows(ppi).value[i])]
  {
    var keys := Sorted(ppi.Keys);
    assert WriteRows(ppi).value == Lines(ppi, keys);
    LinesKeys(ppi, keys);
  }

  /** Every edge has its line. */
  lemma WriteRowsCovers(ppi: map<string, set<string>>)
    requires WriteRows(ppi).Some?
    ensures forall k :: k in ppi ==>
      exists i :: 0 <= i < |WriteRows(ppi).value| && RowKey(WriteRows(ppi).value[i]) == k
  {
    var keys := Sorted(ppi.Keys);
    var out := WriteRows(ppi).value;
    assert out == Lines(ppi, keys);
    forall k | k in ppi
      ensures exists i :: 0 <= i < |out| && RowKey(out[i]) == k
    {
      assert k in keys;
      var i :| 0 <= i < |keys| && keys[i] == k;
      LineFields(ppi, keys, i);
    }
  }

  /** Line `i` is the split of key `i`, two separator-free pieces, with the methods stored under it. */
  lemma LineFields(ppi: map<string, set<string>>, keys: seq<string>, i: nat)
    requires AllSplitInTwo(keys) && (forall k :: k in keys ==> k in ppi) && i < |keys|
    ensures RowKey(Lines(ppi, keys)[i]) == keys[i]
    ensures ';' !in Lines(ppi, keys)[i].geneA && ';' !in Lines(ppi, keys)[i].geneB
    ensures Lines(ppi, keys)[i].methods == ppi[keys[i]]
  {
    LinesAt(ppi, keys, i);
    TwoParts(keys[i]);
  }

  /** Each line is the split of its key, with the methods stored under it. */
  lemma LinesKeys(ppi: map<string, set<string>>, keys: seq<string>)
    requires AllSplitInTwo(keys) && forall k :: k in keys ==> k in ppi
    ensures forall i :: 0 <= i < |keys| ==>
      RowKey(Lines(ppi, keys)[i]) == keys[i] && Lines(ppi, keys)[i].methods == ppi[keys[i]]
  {
    forall i | 0 <= i < |keys|
      ensures RowKey(Lines(ppi, keys)[i]) == keys[i] && Lines(ppi, keys)[i].methods == ppi[keys[i]]
    {
      LineFields(ppi, keys, i);
    }
  }

  /** A resolved key splits back into its two symbols, smaller first. */
  lemma ResolvedKeySplits(k: string, syms: set<string>)
    requires ResolvedKey(k, syms)
    requires forall s :: s in syms ==> ';' !in s
    ensures |Split(k, ';')| == 2
    ensures Split(k, ';')[0] in syms && Split(k, ';')[1] in syms
    ensures Split(k, ';')[0] != "" && Split(k, ';')[1] != ""
    ensures !Less(Split(k, ';')[1], Split(k, ';')[0])
  {
    var a, b :| a in syms && b in syms && a != "" && b != "" && EdgeKey(a, b) == k;
    var p := SortPair(a, b);
    JoinPair(p[0], p[1], ';');
    assert p == [p[0], p[1]];
    SplitJoin(p, ';');
  }

  /** A written row's genes are the two pieces its key splits into. */
  lemma RowKeySplits(row: EdgeRow)
    requires ';' !in row.geneA && ';' !in row.geneB
    ensures Split(RowKey(row), ';') == [row.geneA, row.geneB]
  {
    JoinPair(row.geneA, row.geneB, ';');
    SplitJoin([row.geneA, row.geneB], ';');
  }

  /** A row split from a resolved key names two truthy symbols, smaller first. */
  lemma RowFromResolvedKey(row: EdgeRow, k: string, syms: set<string>)
    requires ResolvedKey(k, syms)
    requires forall s :: s in syms ==> ';' !in s
    requires RowKey(row) == k && ';' !in row.geneA && ';' !in row.geneB
    ensures row.geneA in syms && row.geneB in syms
    ensures row.geneA != "" && row.geneB != "" && !Less(row.geneB, row.geneA)
  {
    ResolvedKeySplits(k, syms);
    RowKeySplits(row);
  }

  /** The edge file of accumulators whose keys are all resolved, when no symbol holds
      the separator: it is written, and each line names two truthy symbols of `syms`
      in sorted order. */
  lemma EdgeFileOf(acc: Accum)
    requires KeysResolved(acc)
    requires forall s :: s in acc.syms ==> ';' !in s
    ensures WriteRows(acc.ppi).Some?
    ensures forall row :: row in WriteRows(acc.ppi).value ==>
      && row.geneA in acc.syms && row.geneB in acc.syms
      && row.geneA != "" && row.geneB != ""
      && !Less(row.geneB, row.geneA)
  {
    forall k | k in acc.ppi
      ensures |Split(k, ';')| == 2
    {
      ResolvedKeySplits(k, acc.syms);
    }
    WriteRowsFails(acc.ppi);
    var keys := Sorted(acc.ppi.Keys);
    var out := WriteRows(acc.ppi).value;
    assert out == Lines(acc.ppi, keys);
    forall row | row in out
      ensures row.geneA in acc.syms && row.geneB in acc.syms
      ensures row.geneA != "" && row.geneB != "" && !Less(row.geneB, row.geneA)
    {
      var i :| 0 <= i < |out| && out[i] == row;
      LineFields(acc.ppi, keys, i);
      RowFromResolvedKey(row, keys[i], acc.syms);
    }
  }

  /** After the whole scan, the edge file lists each edge as two resolved symbols of
      `syms`, smaller first, provided no symbol holds the separator. */
  lemma EdgeFileRoundTrip(H: SymbolTable, rows: seq<seq<string>>)
    requires WellSized(rows)
    requires forall s :: s in Scan(H, rows).syms ==> ';' !in s
    ensures WriteRows(Scan(H, rows).ppi).Some?
    ensures forall row :: row in WriteRows(Scan(H, rows).ppi).value ==>
      && row.geneA in Scan(H, rows).syms && row.geneB in Scan(H, rows).syms
      && row.geneA != "" && row.geneB != ""
      && !Less(row.geneB, row.geneA)
  {
    ScanKeysResolved(H, rows);
    EdgeFileOf(Scan(H, rows));
  }

  /** A key that splits in two holds the separator exactly once. */
  lemma SplitInTwoOneSeparator(k: string)
    requires |Split(k, ';')| == 2
    ensures multiset(k)[';'] == 1
  {
    var parts := Split(k, ';');
    TwoParts(k);
    assert multiset(k) == multiset(parts[0]) + multiset(";") + multiset(parts[1]);
  }

  /** An edge whose symbol holds the separator makes `write_ppi` fail with `ValueError`,
      whatever else `ppi` holds. */
  lemma SeparatorInSymbolFailsWrite(ppi: map<string, set<string>>, a: string, b: string, m: set<string>)
    requires ';' in a || ';' in b
    ensures WriteRows(Merge(ppi, EdgeKey(a, b), m)) == None
  {
    var k := EdgeKey(a, b);
    assert multiset(k) == multiset(a) + multiset(";") + multiset(b);
    assert multiset(k)[';'] >= 2;
    if |Split(k, ';')| == 2 {
      SplitInTwoOneSeparator(k);
    }
    WriteRowsFails(Merge(ppi, EdgeKey(a, b), m));
  }

  /** The failure is reachable: a field `uniprotkb:<name>(gene name)` whose name holds
      `;` (the pattern only excludes `)`) yields that name under the default
      `allow_miss` when no table step knows it, and any edge with it then stops
      `write_ppi`; `uniprotkb:A;B(gene name)` is such a field. */
  lemma SeparatorNameFailsWrite(H: SymbolTable, protS: string, name: string, aliasS: string,
                                b: string, ppi: map<string, set<string>>, m: set<string>)
    requires ';' in name && ')' !in name && !IsSentinel(name)
    requires !AccessionHit(H, protS)
    requires name !in H.official && !IsOfficial(H, AliasOf(aliasS))
    requires !Truthy(H.findSym(Some(name))) && !Truthy(H.findSym(AliasOf(aliasS)))
    ensures GetSym(H, protS, UniprotPrefix + name + GeneNameSuffix, aliasS, true) == Some(name)
    ensures WriteRows(Merge(ppi, EdgeKey(name, b), m)) == None
  {
    UnknownNameNeedsAllowMiss(H, protS, name, aliasS);
    SeparatorInSymbolFailsWrite(ppi, name, b, m);
  }
}
