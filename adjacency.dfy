/** pina_to_adjm.py: the edge list `Gene A / Gene B` turned into a symmetric 0/1
    adjacency matrix over the sorted gene vocabulary. */
module Adjacency {
  import opened Text

  /** Every data row has the two gene columns the script reads. */
  predicate WellFormed(rows: seq<seq<string>>)
  {
    forall k :: 0 <= k < |rows| ==> |rows[k]| >= 2
  }

  /** Some row lists `a` in the first column and `b` in the second. */
  predicate Listed(rows: seq<seq<string>>, a: string, b: string)
    requires WellFormed(rows)
  {
    exists k :: 0 <= k < |rows| && rows[k][0] == a && rows[k][1] == b
  }

  /** Some row links `a` and `b`, in either order. */
  predicate Linked(rows: seq<seq<string>>, a: string, b: string)
    requires WellFormed(rows)
  {
    Listed(rows, a, b) || Listed(rows, b, a)
  }

  /** The set `genes` after the edge-list loop: every name in either column. */
  function Vocabulary(rows: seq<seq<string>>): set<string>
    requires WellFormed(rows)
  {
    if rows == [] then {}
    else
      var last := rows[|rows| - 1];
      Vocabulary(rows[..|rows| - 1]) + {last[0]} + {last[1]}
  }

  /** The vocabulary is exactly the names appearing in either column. */
  lemma {:induction false} VocabularyMembers(rows: seq<seq<string>>)
    requires WellFormed(rows)
    ensures forall g :: g in Vocabulary(rows) <==> exists k :: 0 <= k < |rows| && (rows[k][0] == g || rows[k][1] == g)
    decreases |rows|
  {
    if rows != [] {
      var front := rows[..|rows| - 1];
      VocabularyMembers(front);
      assert forall k :: 0 <= k < |front| ==> front[k] == rows[k];
    }
  }

  /** The dictionary `ppi` after the edge-list loop: each first-column name maps to
      the second-column names listed with it. */
  function Partners(rows: seq<seq<string>>): map<string, set<string>>
    requires WellFormed(rows)
  {
    if rows == [] then map[]
    else
      var last := rows[|rows| - 1];
      var m := Partners(rows[..|rows| - 1]);
      m[last[0] := (if last[0] in m then m[last[0]] else {}) + {last[1]}]
  }

  /** The keys of `ppi` are the first-column names, and `b` is filed under `a`
      exactly when some row lists `a` then `b`. */
  lemma {:induction false} PartnersListed(rows: seq<seq<string>>)
    requires WellFormed(rows)
    ensures forall a :: a in Partners(rows) <==> exists k :: 0 <= k < |rows| && rows[k][0] == a
    ensures forall a, b :: a in Partners(rows) && b in Partners(rows)[a] <==> Listed(rows, a, b)
    decreases |rows|
  {
    if rows != [] {
      var front := rows[..|rows| - 1];
      var last := rows[|rows| - 1];
      PartnersListed(front);
      assert forall k :: 0 <= k < |front| ==> front[k] == rows[k];
      assert forall a, b :: Listed(rows, a, b) <==> Listed(front, a, b) || (a == last[0] && b == last[1]);
    }
  }

  /** `rownames = sorted(genes)` is strictly increasing and holds exactly the names
      found in either column of some row. */
  lemma RownamesAreColumns(rows: seq<seq<string>>)
    requires WellFormed(rows)
    ensures Increasing(Sorted(Vocabulary(rows)))
    ensures forall g :: g in Sorted(Vocabulary(rows)) <==>
      exists k :: 0 <= k < |rows| && (rows[k][0] == g || rows[k][1] == g)
  {
    VocabularyMembers(rows);
  }

  /** `dict((s, i) for i, s in enumerate(names))`: each name to its position, a later
      position replacing an earlier one. */
  function IndexMap(names: seq<string>): (idx: map<string, nat>)
    ensures forall g :: g in idx <==> g in names
    ensures forall g :: g in idx ==> idx[g] < |names| && names[idx[g]] == g
  {
    if names == [] then map[]
    else
      var front := names[..|names| - 1];
      assert forall k :: 0 <= k < |front| ==> front[k] == names[k];
      assert forall g :: g in names <==> g in front || g == names[|names| - 1];
      IndexMap(front)[names[|names| - 1] := |names| - 1]
  }

  /** Over the sorted vocabulary `row_idx` is a bijection onto `0..n-1`: position
      `k` is mapped back to `k`, and every index names a vocabulary gene. */
  lemma RowIndexBijection(rows: seq<seq<string>>)
    requires WellFormed(rows)
    ensures var names := Sorted(Vocabulary(rows));
      && |names| == |Vocabulary(rows)|
      && (forall g :: g in IndexMap(names) <==> g in Vocabulary(rows))
      && (forall k :: 0 <= k < |names| ==> names[k] in IndexMap(names) && IndexMap(names)[names[k]] == k)
  {
    var names := Sorted(Vocabulary(rows));
    var idx := IndexMap(names);
    forall k | 0 <= k < |names|
      ensures names[k] in idx && idx[names[k]] == k
    {
      assert names[k] in names;
      IncreasingDistinct(names, k, idx[names[k]]);
    }
  }

  /** The entry of the matrix at row `i` and column `j` that the script produces. */
  function Cell(rows: seq<seq<string>>, names: seq<string>, i: nat, j: nat): int
    requires WellFormed(rows) && i < |names| && j < |names|
  {
    if Linked(rows, names[i], names[j]) then 1 else 0
  }

  /** Rows have distinct names, and every name `ppi` mentions has a row in `rowIdx`. */
  ghost predicate Indexed(names: seq<string>, rowIdx: map<string, nat>, ppi: map<string, set<string>>)
  {
    && (forall p, q :: 0 <= p < |names| && 0 <= q < |names| && names[p] == names[q] ==> p == q)
    && (forall a :: a in ppi ==> a in rowIdx && rowIdx[a] < |names| && names[rowIdx[a]] == a)
    && (forall a, b :: a in ppi && b in ppi[a] ==> b in rowIdx && rowIdx[b] < |names| && names[rowIdx[b]] == b)
  }

  /** Genes already handled by the fill: `a` was taken from `ppi` and is no longer pending. */
  ghost predicate Done(ppi: map<string, set<string>>, todo: set<string>, a: string, b: string)
  {
    a in ppi && a !in todo && b in ppi[a]
  }

  /** As `Done`, while the partners of `gi` outside `pending` have been handled too. */
  ghost predicate DoneWithin(ppi: map<string, set<string>>, todo: set<string>, gi: string, pending: set<string>,
                             a: string, b: string)
  {
    Done(ppi, todo, a, b) || (a == gi && gi in ppi && b in ppi[gi] && b !in pending)
  }

  /** Handling `gj` adds exactly the pair `(gi, gj)`. */
  lemma HandleOne(ppi: map<string, set<string>>, todo: set<string>, gi: string, pending: set<string>, gj: string)
    requires gi in ppi && gj in pending && pending <= ppi[gi]
    ensures forall a, b ::
      DoneWithin(ppi, todo, gi, pending - {gj}, a, b) <==> (DoneWithin(ppi, todo, gi, pending, a, b) || (a == gi && b == gj))
  {
  }

  /** `A` holds 1 exactly at the handled pairs, in both orientations. */
  ghost predicate Filled(A: array2<int>, names: seq<string>, ppi: map<string, set<string>>, todo: set<string>)
    reads A
  {
    && A.Length0 == |names| && A.Length1 == |names|
    && forall p, q :: 0 <= p < |names| && 0 <= q < |names| ==>
         A[p, q] == if Done(ppi, todo, names[p], names[q]) || Done(ppi, todo, names[q], names[p]) then 1 else 0
  }

  ghost predicate FilledWithin(A: array2<int>, names: seq<string>, ppi: map<string, set<string>>, todo: set<string>,
                               gi: string, pending: set<string>)
    reads A
  {
    && A.Length0 == |names| && A.Length1 == |names|
    && forall p, q :: 0 <= p < |names| && 0 <= q < |names| ==>
         A[p, q] == if DoneWithin(ppi, todo, gi, pending, names[p], names[q])
                    || DoneWithin(ppi, todo, gi, pending, names[q], names[p]) then 1 else 0
  }

  /** The inner loop of the fill: `A[i,j] = 1; A[j,i] = 1` for every partner of `gi`. */
  method MarkPartners(A: array2<int>, names: seq<string>, rowIdx: map<string, nat>, ppi: map<string, set<string>>,
                      todo: set<string>, gi: string)
    requires Indexed(names, rowIdx, ppi) && gi in todo && todo <= ppi.Keys
    requires Filled(A, names, ppi, todo)
    modifies A
    ensures Filled(A, names, ppi, todo - {gi})
  {
    var pending := ppi[gi];
    while pending != {}
      invariant pending <= ppi[gi]
      invariant FilledWithin(A, names, ppi, todo, gi, pending)
      decreases |pending|
    {
      var gj :| gj in pending;
      var i := rowIdx[gi];
      var j := rowIdx[gj];
      assert names[i] == gi && names[j] == gj;
      A[i, j] := 1;
      A[j, i] := 1;
      HandleOne(ppi, todo, gi, pending, gj);
      pending := pending - {gj};
    }
  }

  /** The outer loop of the fill, over every key of `ppi`. */
  method Fill(A: array2<int>, names: seq<string>, rowIdx: map<string, nat>, ppi: map<string, set<string>>)
    requires Indexed(names, rowIdx, ppi)
    requires Filled(A, names, ppi, ppi.Keys)
    modifies A
    ensures Filled(A, names, ppi, {})
  {
    var todo := ppi.Keys;
    while todo != {}
      invariant todo <= ppi.Keys
      invariant Filled(A, names, ppi, todo)
      decreases |todo|
    {
      var gi :| gi in todo;
      MarkPartners(A, names, rowIdx, ppi, todo, gi);
      todo := todo - {gi};
    }
  }

  /** The edge-list loop: `genes` and `ppi` as built from the rows. */
  method CollectEdges(rows: seq<seq<string>>) returns (genes: set<string>, ppi: map<string, set<string>>)
    requires WellFormed(rows)
    ensures genes == Vocabulary(rows)
    ensures ppi == Partners(rows)
  {
    ppi := map[];
    genes := {};
    for k := 0 to |rows|
      invariant genes == Vocabulary(rows[..k])
      invariant ppi == Partners(rows[..k])
    {
      assert rows[..k + 1][..k] == rows[..k];
      var row := rows[k];
      genes := genes + {row[0]};
      genes := genes + {row[1]};
      ppi := ppi[row[0] := (if row[0] in ppi then ppi[row[0]] else {}) + {row[1]}];
    }
    assert rows[..|rows|] == rows;
  }

  /** The sorted vocabulary and its index cover every name of the edge list. */
  lemma VocabularyIndexed(rows: seq<seq<string>>)
    requires WellFormed(rows)
    ensures Indexed(Sorted(Vocabulary(rows)), IndexMap(Sorted(Vocabulary(rows))), Partners(rows))
  {
    var names := Sorted(Vocabulary(rows));
    forall p, q | 0 <= p < |names| && 0 <= q < |names| && names[p] == names[q]
      ensures p == q
    {
      IncreasingDistinct(names, p, q);
    }
    PartnersInVocabulary(rows);
  }

  /** Both ends of every collected edge are in the vocabulary. */
  lemma PartnersInVocabulary(rows: seq<seq<string>>)
    requires WellFormed(rows)
    ensures forall a :: a in Partners(rows) ==> a in Vocabulary(rows)
    ensures forall a, b :: a in Partners(rows) && b in Partners(rows)[a] ==> b in Vocabulary(rows)
  {
    VocabularyMembers(rows);
    PartnersListed(rows);
    forall a | a in Partners(rows)
      ensures a in Vocabulary(rows)
    {
      var k :| 0 <= k < |rows| && rows[k][0] == a;
    }
    forall a, b | a in Partners(rows) && b in Partners(rows)[a]
      ensures b in Vocabulary(rows)
    {
      assert Listed(rows, a, b);
      var k :| 0 <= k < |rows| && rows[k][0] == a && rows[k][1] == b;
    }
  }

  /** `np.zeros((n, n))`, with integer entries. */
  method Zeros(n: nat) returns (A: array2<int>)
    ensures fresh(A)
    ensures A.Length0 == n && A.Length1 == n
    ensures forall p, q :: 0 <= p < n && 0 <= q < n ==> A[p, q] == 0
  {
    A := new int[n, n]((i, j) => 0);
  }

  /** The zero matrix is the fill's starting point: nothing handled yet. */
  lemma StartsEmpty(A: array2<int>, names: seq<string>, ppi: map<string, set<string>>)
    requires A.Length0 == |names| && A.Length1 == |names|
    requires forall p, q :: 0 <= p < A.Length0 && 0 <= q < A.Length1 ==> A[p, q] == 0
    ensures Filled(A, names, ppi, ppi.Keys)
  {
  }

  /** Once every key of `ppi` is handled, the matrix is the adjacency of the rows. */
  lemma FilledIsAdjacency(rows: seq<seq<string>>, names: seq<string>, A: array2<int>)
    requires WellFormed(rows) && Filled(A, names, Partners(rows), {})
    ensures forall i, j :: 0 <= i < A.Length0 && 0 <= j < A.Length1 ==> A[i, j] == Cell(rows, names, i, j)
  {
    var ppi := Partners(rows);
    PartnersListed(rows);
    forall i, j | 0 <= i < A.Length0 && 0 <= j < A.Length1
      ensures A[i, j] == Cell(rows, names, i, j)
    {
      assert Done(ppi, {}, names[i], names[j]) <==> Listed(rows, names[i], names[j]);
      assert Done(ppi, {}, names[j], names[i]) <==> Listed(rows, names[j], names[i]);
    }
  }

  /** `main` up to the matrix: the sorted vocabulary, its index and the filled matrix.
      `rowIdx` is `row_idx`; the column names are the row names. */
  method BuildAdjacency(rows: seq<seq<string>>) returns (rownames: seq<string>, rowIdx: map<string, nat>, A: array2<int>)
    requires WellFormed(rows)
    ensures rownames == Sorted(Vocabulary(rows))
    ensures rowIdx == IndexMap(rownames)
    ensures fresh(A)
    ensures A.Length0 == |rownames| && A.Length1 == |rownames|
    ensures forall i, j :: 0 <= i < A.Length0 && 0 <= j < A.Length1 ==> A[i, j] == Cell(rows, rownames, i, j)
  {
    var genes, ppi := CollectEdges(rows);
    rownames := Sorted(genes);
    rowIdx := IndexMap(rownames);
    var n := |rownames|;
    A := Zeros(n);
    StartsEmpty(A, rownames, ppi);
    VocabularyIndexed(rows);
    Fill(A, rownames, rowIdx, ppi);
    FilledIsAdjacency(rows, rownames, A);
  }

  // ---------------------------------------------------------------------------
  // Properties of the matrix
  // ---------------------------------------------------------------------------

  /** The matrix is symmetric. */
  lemma CellSymmetric(rows: seq<seq<string>>, names: seq<string>, i: nat, j: nat)
    requires WellFormed(rows) && i < |names| && j < |names|
    ensures Cell(rows, names, i, j) == Cell(rows, names, j, i)
  {
  }

  /** A diagonal entry is 1 exactly when some row pairs a gene with itself. */
  lemma DiagonalIsSelfPair(rows: seq<seq<string>>, names: seq<string>, i: nat)
    requires WellFormed(rows) && i < |names|
    ensures Cell(rows, names, i, i) == 1 <==> exists k :: 0 <= k < |rows| && rows[k][0] == names[i] && rows[k][1] == names[i]
    ensures Cell(rows, names, i, i) == 0 <==> !Listed(rows, names[i], names[i])
  {
  }

  /** The matrix depends on the rows only as a set: repeating or reordering rows
      changes neither the vocabulary nor any entry. */
  lemma RowSetDetermines(rows: seq<seq<string>>, rows2: seq<seq<string>>)
    requires WellFormed(rows) && WellFormed(rows2)
    requires forall r :: r in rows <==> r in rows2
    ensures Vocabulary(rows) == Vocabulary(rows2)
    ensures forall a, b :: Linked(rows, a, b) <==> Linked(rows2, a, b)
  {
    forall a, b | Listed(rows, a, b)
      ensures Listed(rows2, a, b)
    {
      var k :| 0 <= k < |rows| && rows[k][0] == a && rows[k][1] == b;
      assert rows[k] in rows2;
    }
    forall a, b | Listed(rows2, a, b)
      ensures Listed(rows, a, b)
    {
      var k :| 0 <= k < |rows2| && rows2[k][0] == a && rows2[k][1] == b;
      assert rows2[k] in rows;
    }
    VocabularyMembers(rows);
    VocabularyMembers(rows2);
    forall g | g in Vocabulary(rows)
      ensures g in Vocabulary(rows2)
    {
      var k :| 0 <= k < |rows| && (rows[k][0] == g || rows[k][1] == g);
      assert rows[k] in rows2;
    }
    forall g | g in Vocabulary(rows2)
      ensures g in Vocabulary(rows)
    {
      var k :| 0 <= k < |rows2| && (rows2[k][0] == g || rows2[k][1] == g);
      assert rows2[k] in rows;
    }
  }

  /** A row appended a second time leaves the matrix as it was. */
  lemma DuplicateRowIgnored(rows: seq<seq<string>>, k: nat)
    requires WellFormed(rows) && k < |rows|
    ensures WellFormed(rows + [rows[k]])
    ensures Vocabulary(rows + [rows[k]]) == Vocabulary(rows)
    ensures forall a, b :: Linked(rows + [rows[k]], a, b) <==> Linked(rows, a, b)
  {
    var more := rows + [rows[k]];
    assert forall r :: r in more <==> r in rows;
    RowSetDetermines(more, rows);
  }

  // The sum of the entries, `np.sum(A)`.

  /** 1 where `a` and `b` are linked, 0 elsewhere. */
  function Entry(rows: seq<seq<string>>, a: string, b: string): nat
    requires WellFormed(rows)
  {
    if Linked(rows, a, b) then 1 else 0
  }

  /** The entries of row `a` over the columns `ys`. */
  function RowTotal(rows: seq<seq<string>>, a: string, ys: seq<string>): nat
    requires WellFormed(rows)
  {
    if ys == [] then 0 else RowTotal(rows, a, ys[..|ys| - 1]) + Entry(rows, a, ys[|ys| - 1])
  }

  /** The entries of the rows `xs` over the columns `ys`. */
  function GridTotal(rows: seq<seq<string>>, xs: seq<string>, ys: seq<string>): nat
    requires WellFormed(rows)
  {
    if xs == [] then 0 else GridTotal(rows, xs[..|xs| - 1], ys) + RowTotal(rows, xs[|xs| - 1], ys)
  }

  /** Each unordered pair of distinct linked genes of `S`, smaller name first. */
  ghost function Edges(rows: seq<seq<string>>, S: set<string>): set<(string, string)>
    requires WellFormed(rows)
  {
    set a, b | a in S && b in S && Less(a, b) && Linked(rows, a, b) :: (a, b)
  }

  /** The genes of `S` that some row pairs with themselves. */
  ghost function SelfPairs(rows: seq<seq<string>>, S: set<string>): set<string>
    requires WellFormed(rows)
  {
    set a | a in S && Linked(rows, a, a)
  }

  /** The genes of `S` linked to `z`. */
  ghost function Neighbours(rows: seq<seq<string>>, z: string, S: set<string>): set<string>
    requires WellFormed(rows)
  {
    set b | b in S && Linked(rows, z, b)
  }

  ghost function Members(ys: seq<string>): set<string>
  {
    set y | y in ys
  }

  /** Adding one column adds that column's entries, which by symmetry are row `y`'s. */
  lemma {:induction false} GridAddColumn(rows: seq<seq<string>>, xs: seq<string>, ys: seq<string>, y: string)
    requires WellFormed(rows)
    ensures GridTotal(rows, xs, ys + [y]) == GridTotal(rows, xs, ys) + RowTotal(rows, y, xs)
    decreases |xs|
  {
    if xs != [] {
      var front, x := xs[..|xs| - 1], xs[|xs| - 1];
      GridAddColumn(rows, front, ys, y);
      assert (ys + [y])[..|ys|] == ys;
      assert RowTotal(rows, x, ys + [y]) == RowTotal(rows, x, ys) + Entry(rows, x, y);
      assert Entry(rows, x, y) == Entry(rows, y, x);
    }
  }

  /** Growing a square block by one gene `z` adds row `z` twice and the diagonal entry once. */
  lemma GridAddGene(rows: seq<seq<string>>, ns: seq<string>, z: string)
    requires WellFormed(rows)
    ensures GridTotal(rows, ns + [z], ns + [z]) == GridTotal(rows, ns, ns) + 2 * RowTotal(rows, z, ns) + Entry(rows, z, z)
  {
    var more := ns + [z];
    assert more[..|ns|] == ns;
    GridAddColumn(rows, ns, ns, z);
    assert GridTotal(rows, more, more) == GridTotal(rows, ns, more) + RowTotal(rows, z, more);
  }

  /** Over distinct columns, a row's entries count the genes linked to it. */
  lemma {:induction false} RowTotalCounts(rows: seq<seq<string>>, z: string, ys: seq<string>)
    requires WellFormed(rows)
    requires forall p, q :: 0 <= p < q < |ys| ==> ys[p] != ys[q]
    ensures RowTotal(rows, z, ys) == |Neighbours(rows, z, Members(ys))|
    decreases |ys|
  {
    if ys != [] {
      var front, y := ys[..|ys| - 1], ys[|ys| - 1];
      RowTotalCounts(rows, z, front);
      assert Members(ys) == Members(front) + {y};
      assert y !in Members(front);
      if Linked(rows, z, y) {
        assert Neighbours(rows, z, Members(ys)) == Neighbours(rows, z, Members(front)) + {y};
      } else {
        assert Neighbours(rows, z, Members(ys)) == Neighbours(rows, z, Members(front));
      }
    }
  }

  /** Pairing every element of `T` with the same `z` keeps the count. */
  lemma {:induction false} PairWithCount(T: set<string>, z: string)
    ensures |set b | b in T :: (b, z)| == |T|
    decreases |T|
  {
    if T != {} {
      var x :| x in T;
      PairWithCount(T - {x}, z);
      assert (set b | b in T :: (b, z)) == (set b | b in T - {x} :: (b, z)) + {(x, z)};
    }
  }

  /** The edges of `S` plus a gene `z` greater than all of `S`: the old ones plus `z`'s neighbours paired with `z`. */
  lemma EdgesAddGreatest(rows: seq<seq<string>>, S: set<string>, z: string)
    requires WellFormed(rows)
    requires forall b :: b in S ==> Less(b, z)
    ensures Edges(rows, S + {z}) == Edges(rows, S) + set b | b in Neighbours(rows, z, S) :: (b, z)
    ensures (set b | b in Neighbours(rows, z, S) :: (b, z)) !! Edges(rows, S)
  {
    LessIrreflexive(z);
    forall a, b | a in S + {z} && b in S + {z} && Less(a, b) && Linked(rows, a, b)
      ensures (a, b) in Edges(rows, S) || (b == z && a in Neighbours(rows, z, S))
    {
      if a == z {
        LessAsymmetric(b, z);
      }
    }
  }

  /** Counting effect on the edges of adding a gene `z` greater than every gene of `S`. */
  lemma CountsAddGreatest(rows: seq<seq<string>>, S: set<string>, z: string)
    requires WellFormed(rows)
    requires forall b :: b in S ==> Less(b, z)
    ensures |Edges(rows, S + {z})| == |Edges(rows, S)| + |Neighbours(rows, z, S)|
  {
    EdgesAddGreatest(rows, S, z);
    PairWithCount(Neighbours(rows, z, S), z);
  }

  /** Counting effect on the self-pairs of adding a gene `z` greater than every gene of `S`. */
  lemma SelfPairsAddGreatest(rows: seq<seq<string>>, S: set<string>, z: string)
    requires WellFormed(rows)
    requires forall b :: b in S ==> Less(b, z)
    ensures |SelfPairs(rows, S + {z})| == |SelfPairs(rows, S)| + Entry(rows, z, z)
  {
    LessIrreflexive(z);
    assert z !in S;
    if Linked(rows, z, z) {
      assert SelfPairs(rows, S + {z}) == SelfPairs(rows, S) + {z};
    } else {
      assert SelfPairs(rows, S + {z}) == SelfPairs(rows, S);
    }
  }

  /** The last gene of an increasing list is greater than all the others, which are
      themselves increasing and distinct. */
  lemma LastIsGreatest(front: seq<string>, z: string)
    requires Increasing(front + [z])
    ensures Increasing(front)
    ensures forall p, q :: 0 <= p < q < |front| ==> front[p] != front[q]
    ensures forall b :: b in Members(front) ==> Less(b, z)
    ensures Members(front + [z]) == Members(front) + {z}
  {
    var ns := front + [z];
    assert forall p :: 0 <= p < |front| ==> ns[p] == front[p];
    forall p, q | 0 <= p < q < |front|
      ensures front[p] != front[q]
    {
      LessIrreflexive(front[p]);
    }
    forall b | b in Members(front)
      ensures Less(b, z)
    {
      var p :| 0 <= p < |front| && front[p] == b;
      assert ns[p] == b && ns[|front|] == z;
    }
  }

  /** Over a strictly increasing list of genes the entries add up to twice the linked
      unordered pairs of distinct genes plus the self-pairs. */
  lemma {:induction false} GridCounts(rows: seq<seq<string>>, ns: seq<string>)
    requires WellFormed(rows) && Increasing(ns)
    ensures GridTotal(rows, ns, ns) == 2 * |Edges(rows, Members(ns))| + |SelfPairs(rows, Members(ns))|
    decreases |ns|
  {
    if ns != [] {
      var front, z := ns[..|ns| - 1], ns[|ns| - 1];
      assert ns == front + [z];
      LastIsGreatest(front, z);
      GridCounts(rows, front);
      GridAddGene(rows, front, z);
      RowTotalCounts(rows, z, front);
      CountsAddGreatest(rows, Members(front), z);
      SelfPairsAddGreatest(rows, Members(front), z);
    }
  }

  /** The sum of the whole matrix is twice the number of distinct linked gene pairs,
      plus one per gene paired with itself. */
  lemma MatrixSum(rows: seq<seq<string>>)
    requires WellFormed(rows)
    ensures var names := Sorted(Vocabulary(rows));
      GridTotal(rows, names, names)
        == 2 * |Edges(rows, Vocabulary(rows))| + |SelfPairs(rows, Vocabulary(rows))|
  {
    var names := Sorted(Vocabulary(rows));
    GridCounts(rows, names);
    assert Members(names) == Vocabulary(rows);
  }

  /** `np.sum` of row `i` of `A` over its first `n` columns. */
  function ArrayRowSum(A: array2<int>, i: nat, n: nat): int
    requires i < A.Length0 && n <= A.Length1
    reads A
  {
    if n == 0 then 0 else ArrayRowSum(A, i, n - 1) + A[i, n - 1]
  }

  /** `np.sum` of the first `m` rows of `A`. */
  function ArraySum(A: array2<int>, m: nat): int
    requires m <= A.Length0
    reads A
  {
    if m == 0 then 0 else ArraySum(A, m - 1) + ArrayRowSum(A, m - 1, A.Length1)
  }

  lemma {:induction false} ArrayRowSumIsRowTotal(rows: seq<seq<string>>, names: seq<string>, A: array2<int>, i: nat, n: nat)
    requires WellFormed(rows) && A.Length0 == |names| && A.Length1 == |names| && i < |names| && n <= |names|
    requires forall p, q :: 0 <= p < A.Length0 && 0 <= q < A.Length1 ==> A[p, q] == Cell(rows, names, p, q)
    ensures ArrayRowSum(A, i, n) == RowTotal(rows, names[i], names[..n])
    decreases n
  {
    if n > 0 {
      ArrayRowSumIsRowTotal(rows, names, A, i, n - 1);
      assert names[..n][..n - 1] == names[..n - 1];
    }
  }

  lemma {:induction false} ArraySumIsGridTotal(rows: seq<seq<string>>, names: seq<string>, A: array2<int>, m: nat)
    requires WellFormed(rows) && A.Length0 == |names| && A.Length1 == |names| && m <= |names|
    requires forall p, q :: 0 <= p < A.Length0 && 0 <= q < A.Length1 ==> A[p, q] == Cell(rows, names, p, q)
    ensures ArraySum(A, m) == GridTotal(rows, names[..m], names)
    decreases m
  {
    if m > 0 {
      ArraySumIsGridTotal(rows, names, A, m - 1);
      ArrayRowSumIsRowTotal(rows, names, A, m - 1, |names|);
      assert names[..|names|] == names;
      assert names[..m][..m - 1] == names[..m - 1];
    }
  }

  /** The quantity `main` reports as "interactions x2", `np.sum(A)`, for the matrix
      it builds: twice the distinct linked gene pairs plus the self-pairs. */
  lemma MatrixSumCounts(rows: seq<seq<string>>, names: seq<string>, A: array2<int>)
    requires WellFormed(rows) && names == Sorted(Vocabulary(rows))
    requires A.Length0 == |names| && A.Length1 == |names|
    requires forall p, q :: 0 <= p < A.Length0 && 0 <= q < A.Length1 ==> A[p, q] == Cell(rows, names, p, q)
    ensures ArraySum(A, A.Length0) == 2 * |Edges(rows, Vocabulary(rows))| + |SelfPairs(rows, Vocabulary(rows))|
  {
    ArraySumIsGridTotal(rows, names, A, |names|);
    assert names[..|names|] == names;
    MatrixSum(rows);
  }
}
