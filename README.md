# PINA interaction table to gene graph, in Dafny

This project models two scripts that turn the PINA protein–protein interaction
table (PSI-MITAB columns) into a graph over gene symbols, official HUGO ones where
the symbol table knows them, and proves properties of that model.

- `parse.py` reads the table one row at a time. It keeps a row only when both taxon
  columns are `taxid:9606(Homo sapiens)`. It resolves each interactor to a gene
  symbol with `get_sym`, which tries the accession map, then the official gene
  name, then the official alias, then the fuzzy `find_sym` on each of those two,
  and finally the raw gene name. It reads the detection method with
  `get_interact`. It then accumulates:
  - `ppi`, a map from the undirected edge key `"a;b"` (smaller symbol first) to a
    set of methods;
  - `problems`, a map from the raw `prot;sym;alias` triple of an unresolved
    interactor to its line numbers;
  - `syms`, the set of resolved symbols;
  - `n_not_human`, the number of rows skipped by the taxon filter.

  `write_ppi` writes one line per key of `ppi`, in sorted order, split back into
  its two genes.
- `pina_to_adjm.py` reads that edge file back. It collects the gene vocabulary and
  a map from each first-column gene to its partners. It sorts the vocabulary,
  indexes it, and fills a symmetric 0/1 matrix over it.

Files:

- `text.dfy`:
  - `Optional`, the `Option` type;
  - `Text`, Python's string order (`Less`), `sorted` of a set of strings,
    `str.split` and `str.join` for a one-character separator, and the round
    trips between split and join.
- `patterns.dfy` (`Patterns`): the three regular expressions of `parse.py`,
  written out as string functions, each with a lemma saying that every field of
  the pattern's shape yields the expected group.
- `resolver.dfy` (`Resolver`): `get_sym`, with the symbol table as a value of
  three members. `find_sym` is an arbitrary function.
- `ppi_parse.dfy` (`PpiParse`):
  - `get_interact` as a loop;
  - the row loop of `main` as a method over its four accumulators, proved
    against the specification function `Scan`;
  - `write_ppi`'s loop, proved against `WriteRows`.
- `adjacency.dfy` (`Adjacency`): `main` of `pina_to_adjm.py`. It has the
  edge-list loop, the sorted vocabulary and `row_idx`, the zero array, and the
  nested fill loop over an `array2<int>`. The properties of the matrix,
  including its sum, are stated as lemmas.

Rows arrive already split on tabs. `get_interact` matches the pattern against the
whole field on every pass of its loop, not against the token of that pass. The
model keeps this behaviour, so only the label of the first `code(label)` is ever
reported (`LabelsTwoMethods`).

`write_ppi` can fail. The gene-name pattern excludes only `)`, so a name holding
`;` is returned by `get_sym` under the default `allow_miss` when no table step
recognises it, and the edge key made
from it splits into more than two pieces at `parse.py:24`, which raises
`ValueError`. `SeparatorNameFailsWrite` proves this path; the field
`uniprotkb:A;B(gene name)` is an example of it.

## Model

| member | source | states |
|---|---|---|
| Text.Less | parse.py:23 | the `<` that `sorted` uses: lexicographic comparison, a proper prefix being smaller; `LessIrreflexive`, `LessTransitive` and `LessTotal` make it a strict total order |
| Text.Sorted | pina_to_adjm.py:23 | `sorted` of a set of strings is strictly increasing in Python's string order, holds exactly the set's members, and has one entry per member |
| Text.IncreasingUnique | parse.py:23 | two increasing sequences with the same members are equal, so `sorted` has a single possible answer |
| Text.JoinSplit | parse.py:24 | joining the pieces of `s.split(c)` with `c` gives `s` back |
| Text.SplitJoin | parse.py:24 | splitting a join of separator-free pieces gives the pieces back |
| Text.SplitPiecesFree | parse.py:24 | no piece of `s.split(c)` contains `c` |
| Text.Split | parse.py:24 | `s.split(c)`: the pieces of `s` between occurrences of `c`, at least one of them |
| Text.Join | parse.py:109 | `c.join(parts)`: the pieces with `c` between consecutive ones |
| Patterns.MatchUniprot | parse.py:15 | a match means the field is `uniprotkb:`, then a non-empty group without a newline, then the end of the field or a newline |
| Patterns.UniprotMatches | parse.py:15 | every field of that shape yields exactly that group |
| Patterns.MatchGeneName | parse.py:16 | a match means the field is `uniprotkb:`, then a `)`-free group (possibly empty), then `(gene name)`, then anything |
| Patterns.GeneNameMatches | parse.py:16 | every field of that shape yields exactly that group |
| Patterns.MatchInteract | parse.py:14 | a match means the field is a non-empty `(`-free head, `(`, a non-empty `)`-free group, `)`, then anything |
| Patterns.InteractMatches | parse.py:14 | every field of that shape yields exactly that group |
| Patterns.InteractIgnoresSuffix | parse.py:14 | `re.match` is anchored only at the start, so text appended to a matching field does not change its group |
| Resolver.Truthy | parse.py:102-104 | Python's truth value of a `str` or `None`: false for `None` and for the empty string |
| Resolver.IsSentinel | parse.py:50 | the raw values `-` and `None` that `get_sym` reads as "no value", in the alias column and in the fallback test at line 71 |
| Resolver.IsOfficial | parse.py:57-59 | `x in H.official` for a `str` or `None`, `None` never being a member |
| Resolver.AccessionHit | parse.py:38-56 | the accession extracted by `uniprotkb:(.+)` exists and is a key of `H.uniprot` |
| Resolver.AliasOf | parse.py:50-53 | the alias is absent exactly when the column is `-` or `None`, and is otherwise the column unchanged |
| Resolver.GetSym | parse.py:36-74 | an accession found in the accession map decides the answer whatever the other columns hold; any other answer comes from the official set, from `find_sym`, or is the gene name returned under `allow_miss` |
| Resolver.OfficialNameBeforeAlias | parse.py:55-60 | without an accession hit, an official gene name is returned unchanged; failing that, an official alias is returned unchanged |
| Resolver.FuzzyOrder | parse.py:61-68 | `find_sym` runs only when no exact step matched: first on the gene name, then on the alias; an empty or missing answer counts as a miss |
| Resolver.FallbackGating | parse.py:69-74 | without `allow_miss` the result is `None` exactly when all five table steps fail; with it, the result differs only in that case, and then it is the gene name unless that is a sentinel, never the alias |
| Resolver.GetSymIsFirstMatch | parse.py:55-74 | `get_sym` equals "the first of six independently stated strategies that answers" |
| Resolver.AccessionOutranksAlias | parse.py:55-56 | an accession mapped to SEPT6 wins over an alias that is itself an official symbol |
| Resolver.UnknownNameNeedsAllowMiss | parse.py:70-74 | a gene name unknown to every table step is returned only when `allow_miss` is set |
| PpiParse.Labels | parse.py:28-34 | the result has at most one element; it is empty exactly when the whole field does not match, and otherwise holds the matched group |
| PpiParse.GetInteract | parse.py:28-34 | the loop over the `|` tokens returns `Labels` of the whole field |
| PpiParse.LabelsFirstCodeOnly | parse.py:31-33 | a field that starts with `code(label)` yields exactly `{label}`, whatever follows it |
| PpiParse.LabelsOfDash | parse.py:28-34 | the field `-` yields the empty set |
| PpiParse.LabelsTwoMethods | parse.py:30-33 | with two `|`-separated methods only the first label is reported |
| PpiParse.SortPair | parse.py:109 | `sorted((a, b))` is a permutation of the pair, with the smaller element first |
| PpiParse.EdgeKey | parse.py:109 | the key is the two symbols joined by `;`, in one order or the other |
| PpiParse.EdgeKeySymmetric | parse.py:109 | the key does not depend on which interactor came first |
| PpiParse.AddLine | parse.py:105 | `setdefault(key, set()).add(linenum)` adds `key` if missing, adds the line under it, and leaves every other key as it was |
| PpiParse.Merge | parse.py:110 | `setdefault(key, set()).update(methods)` adds `key` if missing, unions the methods under it, and leaves every other key as it was |
| PpiParse.MergeIdempotent | parse.py:110 | merging the same methods under the same key twice equals merging once |
| PpiParse.IsHumanRow | parse.py:94 | a row is kept when both taxon columns are equal and equal to `taxid:9606(Homo sapiens)` |
| PpiParse.GeneA | parse.py:98 | interactor A resolved by `get_sym` from columns 0, 2 and 4, with `allow_miss` left at its default |
| PpiParse.GeneB | parse.py:99 | interactor B resolved by `get_sym` from columns 1, 3 and 5, with `allow_miss` left at its default |
| PpiParse.ProblemKey | parse.py:105 | the raw `prot;sym;alias` triple an unresolved interactor is filed under |
| PpiParse.Record | parse.py:102-110 | a kept row adds each truthy symbol to `syms`; then it files the line under A's triple if A failed, else under B's if B failed, else merges the methods under the edge key |
| PpiParse.Step | parse.py:88-110 | one iteration: a row failing the taxon filter only increments the counter, any other row is recorded with its resolved genes and methods |
| PpiParse.Scan | parse.py:87-110 | the accumulators after the data rows, starting empty, the row at index `k` being line `k + 2` |
| PpiParse.ParseRows | parse.py:87-110 | the row loop leaves the four accumulators equal to `Scan` of the rows, with line numbers starting at 2 |
| PpiParse.NotHumanRowSkipped | parse.py:94-96 | a row failing the taxon filter only increments `n_not_human` |
| PpiParse.UnresolvedRowLogged | parse.py:102-107 | a resolution failure adds no edge; its line goes under A's raw triple when A failed (even if B failed too), and otherwise under B's |
| PpiParse.SwappedRowSameEdge | parse.py:98-110 | a row with the two interactors' columns exchanged has the same effect when both resolve |
| PpiParse.StepTwiceSamePpi | parse.py:108-110 | ingesting the same row twice leaves `ppi` as ingesting it once |
| PpiParse.RecordGrows | parse.py:102-110 | one kept row never removes a key, method, problem line or symbol |
| PpiParse.StepGrows | parse.py:94-110 | one row of either kind never removes anything from the accumulators and never decreases the counter |
| PpiParse.ScanGrows | parse.py:87-110 | the accumulators after a prefix of the rows are contained in those after all of them |
| PpiParse.RecordKeysResolved | parse.py:102-110 | after one kept row, every `ppi` key is still the edge key of two truthy symbols of `syms` |
| PpiParse.ScanKeysResolved | parse.py:87-110 | after any number of rows, every `ppi` key is the edge key of two truthy symbols of `syms` |
| PpiParse.TwoParts | parse.py:24 | a key that splits in two is its two `;`-free pieces joined by `;` |
| PpiParse.LineFor | parse.py:24-25 | the line written for one key: its two pieces and the methods stored under it |
| PpiParse.Lines | parse.py:23-25 | the lines for a list of keys, one per key, in the same order |
| PpiParse.WriteRows | parse.py:20-26 | the lines after the header for the keys of `sorted(ppi)`, or `None` when some key does not split in two |
| PpiParse.WritePpi | parse.py:20-26 | the loop over the sorted keys produces `WriteRows`: one line per key, or `None` (the `ValueError`) if some key does not split in two |
| PpiParse.WriteRowsFails | parse.py:23-24 | the lines are produced exactly when every key splits in two |
| PpiParse.WriteRowsOrdered | parse.py:23-25 | there is one line per key, in strictly increasing key order |
| PpiParse.WriteRowsMethods | parse.py:25 | each line's genes rejoin to a key of `ppi`, and the line carries that key's methods |
| PpiParse.WriteRowsCovers | parse.py:23-25 | every key of `ppi` has its line |
| PpiParse.LineFields | parse.py:24-25 | line `i` is key `i` split into two `;`-free genes, with that key's methods |
| PpiParse.ResolvedKeySplits | parse.py:24 | a key built from two `;`-free truthy symbols splits back into them, smaller first |
| PpiParse.EdgeFileOf | parse.py:20-26 | when every key is resolved and no symbol holds `;`, the file is written, and each line names two truthy symbols of `syms`, smaller first |
| PpiParse.EdgeFileRoundTrip | parse.py:87-110 | after the whole row loop, the edge file lists every edge as two truthy symbols of `syms`, smaller first, provided no symbol holds `;` |
| PpiParse.SplitInTwoOneSeparator | parse.py:24 | a key that `split(';')` cuts into two pieces holds `;` exactly once |
| PpiParse.SeparatorInSymbolFailsWrite | parse.py:24 | an edge whose symbol holds `;` makes `write_ppi` fail, whatever else `ppi` holds |
| PpiParse.SeparatorNameFailsWrite | parse.py:71-72 | a `;`-holding gene name unknown to every table step is returned under `allow_miss`, and any edge with it makes `write_ppi` fail |
| Adjacency.Vocabulary | pina_to_adjm.py:17-20 | `genes` after the loop: both columns of every row added in turn |
| Adjacency.Partners | pina_to_adjm.py:16-21 | `ppi` after the loop: each row adds its second column to the set under its first |
| Adjacency.VocabularyMembers | pina_to_adjm.py:18-20 | `genes` holds exactly the names found in either column of some row |
| Adjacency.PartnersListed | pina_to_adjm.py:18-21 | the keys of `ppi` are the first-column names, and `b` is filed under `a` exactly when some row lists `a` then `b` |
| Adjacency.CollectEdges | pina_to_adjm.py:18-21 | the edge-list loop builds `Vocabulary` and `Partners` of the rows |
| Adjacency.RownamesAreColumns | pina_to_adjm.py:23 | `rownames` is strictly increasing and holds exactly the names found in either column |
| Adjacency.IndexMap | pina_to_adjm.py:25 | the index has exactly the listed names as keys, and maps each to a position that holds it |
| Adjacency.RowIndexBijection | pina_to_adjm.py:23-25 | over the sorted vocabulary, `row_idx[rownames[k]] == k` for every `k`, and its keys are exactly the vocabulary |
| Adjacency.Zeros | pina_to_adjm.py:26 | the new array is n×n with every cell 0 |
| Adjacency.VocabularyIndexed | pina_to_adjm.py:30-31 | every name the fill looks up in `row_idx` is there, at a row of its own |
| Adjacency.MarkPartners | pina_to_adjm.py:29-32 | the inner loop sets both `(i, j)` and `(j, i)` to 1 for every partner of `gene_i`, and leaves every other cell as it was |
| Adjacency.Fill | pina_to_adjm.py:28-32 | after the outer loop, a cell is 1 exactly when one of its two genes is filed under the other in `ppi`, and 0 otherwise |
| Adjacency.FilledIsAdjacency | pina_to_adjm.py:28-32 | that matrix has 1 at `(i, j)` exactly when some row links the two genes in either order |
| Adjacency.BuildAdjacency | pina_to_adjm.py:13-32 | `rownames` is the sorted vocabulary, `row_idx` its index, and `A` is a new n×n array with `A[i, j]` 1 exactly when some row links `rownames[i]` and `rownames[j]` in either order, and 0 otherwise |
| Adjacency.Cell | pina_to_adjm.py:26-32 | the cell at row `i` and column `j`: 1 when some row links `rownames[i]` and `rownames[j]` in either order, 0 otherwise |
| Adjacency.CellSymmetric | pina_to_adjm.py:32 | the matrix is symmetric |
| Adjacency.DiagonalIsSelfPair | pina_to_adjm.py:30-32 | a diagonal cell is 1 exactly when some row pairs that gene with itself |
| Adjacency.RowSetDetermines | pina_to_adjm.py:18-21 | two edge lists with the same set of rows have the same vocabulary and the same links |
| Adjacency.DuplicateRowIgnored | pina_to_adjm.py:18-21 | repeating a row changes neither the vocabulary nor any link |
| Adjacency.RowTotalCounts | pina_to_adjm.py:34 | over distinct columns, a row of the matrix sums to the number of genes linked to that row's gene |
| Adjacency.GridCounts | pina_to_adjm.py:34 | over an increasing list of genes, the entries sum to twice the linked pairs of distinct genes plus the self-pairs |
| Adjacency.MatrixSum | pina_to_adjm.py:34 | over the whole vocabulary, the entries sum to twice the distinct linked pairs plus the self-pairs |
| Adjacency.ArrayRowSum | pina_to_adjm.py:34 | `np.sum` of one row of `A` over its first `n` columns |
| Adjacency.ArraySum | pina_to_adjm.py:34 | `np.sum` of the first `m` rows of `A` |
| Adjacency.ArraySumIsGridTotal | pina_to_adjm.py:34 | `np.sum` over the first `m` rows of the filled array equals the sum of the matrix's entries over those rows |
| Adjacency.MatrixSumCounts | pina_to_adjm.py:34 | the "interactions x2" figure, `np.sum(A)`, is twice the distinct linked pairs of distinct genes plus the number of genes paired with themselves |

## Left out

- File I/O is not modelled. The model starts from rows already split on tabs and
  never writes a file. This covers:
  - opening and reading the input files;
  - the header line;
  - writing the edge file (`parse.py:21-26`);
  - `mio.save` (`pina_to_adjm.py:37`), which belongs to `matrix_io`, a module
    that is not part of this model.
- Shorter rows are not modelled. Every row is assumed to have at least 11
  columns (`parse.py`) or 2 (`pina_to_adjm.py`); a shorter row makes the scripts
  raise `IndexError`.
- The header assertion (`parse.py:84`) is not modelled. Every row given to the
  model is a data row.
- The statistics and diagnostics are not modelled: `parse.py:112-121` and
  `pina_to_adjm.py:34-35`. Instead, the sum printed at `pina_to_adjm.py:34` is
  characterised by `MatrixSumCounts`. On an empty input, `parse.py:113` fails
  because `linenum` is unbound; that failure is also out of scope.
- `hugo_gene_symbols.load()` and the body of `H.find_sym` are not part of this
  model. `SymbolTable` carries the official set and the accession map as values,
  and `find_sym` as an arbitrary function, which may also be called with `None`.
- The regular-expression engine is not modelled. The three patterns are written
  out by hand. Python's `.` in `uniprotkb:(.+)` does not match a newline, so the
  group stops at the first newline; the model follows that.
- The order inside each line's method list is not modelled. `"|".join` of a
  Python set depends on hashing, so `EdgeRow` keeps the methods as a set.
- WritePpi: a key that does not split in two raises `ValueError` in the source
  after the lines of the smaller keys have been printed. The model returns
  `None` and does not keep that partial file. This happens when a resolved
  symbol holds `;` (`SeparatorNameFailsWrite`).
- Floating point is not modelled. numpy's array holds floats, but every cell is
  0 or 1, so the model uses `array2<int>`.
- Iteration order is not modelled. The model picks the next key of `ppi` and the
  next partner of `gene_i` with `:|`, because Python's dict and set order is not
  something the scripts rely on. The properties hold for every order.
