# Hypergeometric gene-set enrichment expander and transformer, in Dafny

This project models the two gene-list expanders of a gene-set enrichment
service and proves properties of the model.

Both expanders do the same first steps:
- They take a query (a list of genes plus named control values).
- They read MSigDB gene-set lines. Each line is a gene-set id, a label, then member gene ids.
- They keep the sets that share at least one member with the query.
- For each kept set they build a 2x2 contingency table and run an exact test on it.
- They append the members of the significant sets to the query's gene list, in place, and return that list.

They differ after the test:
- The **expander** corrects the p-values with Benjamini-Hochberg. It keeps the sets that pass both the p threshold and the q threshold, ranks them by q-value, and gives each appended gene an Entrez identifier and four attributes.
- The older **transformer** keeps the sets below the p threshold, ranks them by p-value, and appends genes without identifiers.

Modules:

- `Genes` (genes.dfy):
  - gene, attribute and control records;
  - the `Query` class whose gene list the expanders grow in place;
  - the control dictionary and `get_control` with its defaults;
  - `entrez_gene_id`;
  - the key under which each input gene is looked up.

  Both controller files contain the same two helpers, `get_control` and `entrez_gene_id`, and this one model covers both. The transformer's `get_control` offers only `max p-value`.
- `GeneSets` (gene_sets.dfy):
  - the reading loop, as a function (`ReadAll`) and as the loop method `ReadGeneSets` proved equal to it;
  - the contingency tables;
  - the testing loop with its failure path;
  - the p filter that builds `gene_set_pvalues`.
- `MultipleTesting` (multiple_testing.dfy): `correct_pvalues_for_multiple_testing` with all three of its branches.
  - Each branch is an array method proved against a specification predicate or function.
  - The Benjamini-Hochberg step-up procedure's properties are proved: uniqueness, monotonicity, bounds, and probabilities in give probabilities out.
- `Ranking` (ranking.dfy): Python's stable `sorted` with a key, as insertion sort. It proves sortedness, permutation and stability.
- `Expander` (expander.dfy): `expand`.
  - The specification `ExpandSpec` is the stages of `Enrich` followed by the expansion `Appended`.
  - The method `Expand` updates the `Query` in place and is proved equal to `ExpandSpec`.
  - The expander's seen-check tests the prefixed id `NCBIGene:<m>` against the keys.
- `Transformer` (transformer.dfy): `transform_post`, with the specification `TransformSpec` and the method `Transform`.
  - The transformer tests the bare member id but inserts the prefixed one. As a result a member shared by two ranked sets is appended once per occurrence, whether the occurrences are in different ranked sets or repeat within one (`SharedMemberAppendedTwice`, `EveryOccurrenceExact`).

Modelling choices:

- **The exact test** is a parameter `fisher: Table -> FisherResult`. Its p-value has the type `Probability` (a real in [0, 1]); its odds ratio is unconstrained.
  - The exact test raises on a table with a negative cell. This happens when a member repeats within one line: the overlap counts repeats, so `ny = len(genes) - overlap` falls below zero. It also happens when input genes outside every stored set leave the universe too small for `nn`. The model turns that into `Err(id)` for the first such set, and the query is left unchanged.
- **Reals stand in for floating point.** The ratio `n / rank` of the Benjamini-Hochberg branch is exact real division in place of floating point.
- **Control names.** `control_names` is taken to be the identity map it is initialised to, so a control is looked up under its own name.
- **Dictionaries and lists.** The test order (`all_gene_set_ids`, a Python list) is a sequence. A dictionary whose keys are distinct by construction (`gene_set_pvalues` in the transformer) is an insertion-ordered sequence. A dictionary that is overwritten (`gene_set_y_gene_list_y`, ...) is a `map` plus an insertion order. A repeated gene-set id keeps its first position and takes the values of its last qualifying line, while the universe of members keeps the members of both lines.
- **Leftover loop variables.** `odds_ratio`, and `pvalue` in the transformer, are read after the testing loop ends. They are modelled as the values from the last test (`LastOddsRatio`, `LastPValue`), or 0.0 when no set was tested.

The expander reads several gene-set files in turn; the model takes the concatenation of their lines.

## Model

| member | source | states |
|---|---|---|
| Genes.ControlDictLastWins | python-flask-server/swagger_server/controllers/hypergeometric_enrichment_expander.py:78 | a name is in the control dictionary exactly when some control carries it, and it maps to the value of the last control of that name |
| Genes.ControlOfQuery | python-flask-server/swagger_server/controllers/hypergeometric_enrichment_expander.py:17-31 | `GetControl` on the control dictionary of a query's control list: the value of the last control of that name, otherwise 1e-5 for `max p-value` and 0.05 for `max q-value` |
| Genes.EntrezGeneId | python-flask-server/swagger_server/controllers/hypergeometric_enrichment_expander.py:33-42 | None exactly when there is no identifiers record or no Entrez id; otherwise the Entrez id with a leading `NCBIGene:` removed (prefix + result is the original) or unchanged when there is no such prefix |
| Genes.EntrezGeneIdOfPrefixed | python-flask-server/swagger_server/controllers/transformer_controller.py:34-43 | an Entrez id `NCBIGene:` + m gives the key m |
| GeneSets.Overlap | python-flask-server/swagger_server/controllers/hypergeometric_enrichment_expander.py:100-102 | the overlap is at most the set size, and is 0 exactly when no member is an input key |
| GeneSets.OverlapAppend | python-flask-server/swagger_server/controllers/hypergeometric_enrichment_expander.py:100 | the overlap is additive over concatenation, so every occurrence of an input key counts, repeats included |
| GeneSets.OverlapAll | python-flask-server/swagger_server/controllers/hypergeometric_enrichment_expander.py:100 | the overlap equals the set size exactly when every member is an input key |
| GeneSets.ReadAllWellFormed | python-flask-server/swagger_server/controllers/hypergeometric_enrichment_expander.py:92-112 | after reading: ids in insertion order without repeats, stored exactly for those ids, each row with 1 <= overlap, overlap + yn = N, overlap + ny = number of input keys, and all members in the universe |
| GeneSets.ReadAllIds | python-flask-server/swagger_server/controllers/hypergeometric_enrichment_expander.py:94-102 | `ReadAll`, the reading loop as a fold of `ReadLine` over the lines: an id is stored exactly when some line with at least three columns and a nonzero overlap carries it |
| GeneSets.ReadAllLastWins | python-flask-server/swagger_server/controllers/hypergeometric_enrichment_expander.py:103-108 | under `ReadAll`/`ReadLine`, the stored row of an id is the one of its last qualifying line |
| GeneSets.ReadAllUniverse | python-flask-server/swagger_server/controllers/hypergeometric_enrichment_expander.py:109-110 | under `ReadAll`/`ReadLine`, the universe holds exactly the members (`Elements`) of the qualifying lines |
| GeneSets.ReadGeneSets | python-flask-server/swagger_server/controllers/transformer_controller.py:72-91 | the reading loop produces exactly the catalogue of ReadAll |
| GeneSets.TableOf | python-flask-server/swagger_server/controllers/hypergeometric_enrichment_expander.py:121-123 | the table's first three cells are the stored ones and its four cells sum to M |
| GeneSets.StoredTable | python-flask-server/swagger_server/controllers/hypergeometric_enrichment_expander.py:103-123 | for a stored set: yy >= 1, yy + yn = N, yy + ny = number of input keys, cells sum to the universe size |
| GeneSets.TestAllOutcome | python-flask-server/swagger_server/controllers/hypergeometric_enrichment_expander.py:120-127 | `TestAll`, the testing loop as a function: it fails exactly when some table has a negative cell, and then at the first one; otherwise one test per stored set, in insertion order, with the exact test's odds ratio and p-value for its table |
| GeneSets.FailurePersists | python-flask-server/swagger_server/controllers/hypergeometric_enrichment_expander.py:120-124 | a failure on a prefix of the sets is the failure of the whole loop |
| GeneSets.Ids | python-flask-server/swagger_server/controllers/hypergeometric_enrichment_expander.py:127 | `all_gene_set_ids` lists the tested ids in testing order |
| GeneSets.PValues | python-flask-server/swagger_server/controllers/hypergeometric_enrichment_expander.py:126 | `all_pvalues` lists the p-values in testing order, parallel to the ids |
| GeneSets.SignificantContents | python-flask-server/swagger_server/controllers/hypergeometric_enrichment_expander.py:129-131 | `Significant`, the p filter building `gene_set_pvalues`: a tested set is in it exactly when p < max p, with its own p-value, and nothing else is |
| MultipleTesting.DescendingPairs | python-flask-server/swagger_server/controllers/hypergeometric_enrichment_expander.py:60-62 | the (p-value, index) pairs sorted and reversed: every input position exactly once, p-values non-increasing, and among equal p-values the larger index first |
| MultipleTesting.BenjaminiHochberg | python-flask-server/swagger_server/controllers/hypergeometric_enrichment_expander.py:59-73 | the q at each pair's index is the least of the adjusted values n / rank * p up to that pair in descending order |
| MultipleTesting.BHUnique | python-flask-server/swagger_server/controllers/hypergeometric_enrichment_expander.py:59-73 | that characterisation determines the q-values |
| MultipleTesting.CorrectPValuesForMultipleTesting | python-flask-server/swagger_server/controllers/hypergeometric_enrichment_expander.py:44-74 | each of the three correction types produces its specified vector |
| MultipleTesting.BonferroniCorrection | python-flask-server/swagger_server/controllers/hypergeometric_enrichment_expander.py:51-52 | every p-value multiplied by n |
| MultipleTesting.HolmCorrection | python-flask-server/swagger_server/controllers/hypergeometric_enrichment_expander.py:53-58 | the p-value at ascending rank r multiplied by n - r, written to its own position |
| MultipleTesting.BenjaminiHochbergCorrection | python-flask-server/swagger_server/controllers/hypergeometric_enrichment_expander.py:59-73 | the array computation yields the Benjamini-Hochberg q-values |
| MultipleTesting.ClampForward | python-flask-server/swagger_server/controllers/hypergeometric_enrichment_expander.py:68-70 | after the forward pass each value is the least value up to its position |
| MultipleTesting.ScatterBack | python-flask-server/swagger_server/controllers/hypergeometric_enrichment_expander.py:71-73 | the k-th clamped value lands at the original index of the k-th pair |
| MultipleTesting.PrefixMinIsLeast | python-flask-server/swagger_server/controllers/hypergeometric_enrichment_expander.py:68-70 | the clamped value is at most every value before it and equals one of them |
| MultipleTesting.BHLargestKeepsValue | python-flask-server/swagger_server/controllers/hypergeometric_enrichment_expander.py:64-67 | the largest p-value (rank n) keeps its value |
| MultipleTesting.BHSmallInputUnchanged | python-flask-server/swagger_server/controllers/hypergeometric_enrichment_expander.py:59-73 | an input of length 0 or 1 comes back unchanged |
| MultipleTesting.BHMonotone | python-flask-server/swagger_server/controllers/hypergeometric_enrichment_expander.py:59-73 | with non-negative p-values, p_i <= p_j implies q_i <= q_j, and equal p-values get equal q-values |
| MultipleTesting.BHBelowAdjusted | python-flask-server/swagger_server/controllers/hypergeometric_enrichment_expander.py:64-70 | q <= p * n / rank at every position |
| MultipleTesting.BHBounds | python-flask-server/swagger_server/controllers/hypergeometric_enrichment_expander.py:59-73 | with non-negative p-values, p <= q <= the largest p-value |
| MultipleTesting.BHProbabilities | python-flask-server/swagger_server/controllers/hypergeometric_enrichment_expander.py:59-73 | p-values in [0, 1] give q-values in [0, 1], with no explicit cap |
| MultipleTesting.BHOfProbabilities | python-flask-server/swagger_server/controllers/hypergeometric_enrichment_expander.py:133 | for p-values in [0, 1], p <= q <= 1 at every position |
| MultipleTesting.HolmBetweenPAndBonferroni | python-flask-server/swagger_server/controllers/hypergeometric_enrichment_expander.py:51-58 | with non-negative p-values, p <= Holm value <= Bonferroni value at every position |
| Ranking.SortBy | python-flask-server/swagger_server/controllers/hypergeometric_enrichment_expander.py:138 | the result is a permutation of the input |
| Ranking.SortBySorted | python-flask-server/swagger_server/controllers/hypergeometric_enrichment_expander.py:138 | the result is in ascending key order |
| Ranking.SortByStable | python-flask-server/swagger_server/controllers/hypergeometric_enrichment_expander.py:138 | the elements with any one key keep their input order |
| Expander.KeptFromPassing | python-flask-server/swagger_server/controllers/hypergeometric_enrichment_expander.py:134-136 | every set `KeepByQ` keeps is a tested set in `gene_set_pvalues` whose q-value is below max q, with its members, p-value and q-value |
| Expander.PassingIsKept | python-flask-server/swagger_server/controllers/hypergeometric_enrichment_expander.py:134-136 | `KeepByQ` keeps every tested set in `gene_set_pvalues` with q below max q |
| Expander.KeptIff | python-flask-server/swagger_server/controllers/hypergeometric_enrichment_expander.py:129-136 | `KeepByQ`, the q filter over the p-passing sets: a tested set is kept exactly when p < max p and q < max q, and whatever is kept is such a set |
| GeneSets.ReadCatalogue | python-flask-server/swagger_server/controllers/hypergeometric_enrichment_expander.py:80-112 | the catalogue read against the query's keys is well formed |
| Expander.ExpandSpec | python-flask-server/swagger_server/controllers/hypergeometric_enrichment_expander.py:76-170 | on success the query's genes are an unchanged prefix of the result |
| Expander.FirstContaining | python-flask-server/swagger_server/controllers/hypergeometric_enrichment_expander.py:138-141 | the first ranked set containing a member, or None when no set does |
| Expander.AppendedGenes | python-flask-server/swagger_server/controllers/hypergeometric_enrichment_expander.py:138-169 | `Appended` folds `AddMember`, whose seen-check tests `NCBIGene:` + m against the keys (:140-141), and `NewGene` (:142-168): the appended ids are pairwise distinct and not initial keys; each gene is `NewGene` of the first ranked set containing its member; every member of a ranked set is a key in prefixed form or appended |
| Expander.InputGeneAppendedAgain | python-flask-server/swagger_server/controllers/hypergeometric_enrichment_expander.py:140-141 | an input gene with Entrez id `NCBIGene:7` has `GeneKey` 7, so `InputKeys` holds 7 and not `NCBIGene:7`, and member 7 of a kept set is appended again with the same Entrez id |
| Expander.OneLineFails | python-flask-server/swagger_server/controllers/hypergeometric_enrichment_expander.py:120-124 | a single qualifying line whose table has a negative cell makes the run fail on its set |
| Expander.RepeatedMemberFails | python-flask-server/swagger_server/controllers/hypergeometric_enrichment_expander.py:100-108 | a member repeated within a line counts twice in the overlap, so `ny` is negative and the run fails on that set |
| Expander.SmallUniverseFails | python-flask-server/swagger_server/controllers/hypergeometric_enrichment_expander.py:109-121 | an input gene in no stored set leaves the universe too small, so `nn` is negative and the run fails on that set |
| Expander.EnrichFailure | python-flask-server/swagger_server/controllers/hypergeometric_enrichment_expander.py:120-124 | the run fails exactly when some stored set's table has a negative cell, naming the first one; the spec fails exactly when the enrichment does |
| Expander.EnrichTests | python-flask-server/swagger_server/controllers/hypergeometric_enrichment_expander.py:120-127 | the tests of a successful run are the testing loop's and their ids are the insertion order |
| Expander.EnrichStages | python-flask-server/swagger_server/controllers/hypergeometric_enrichment_expander.py:133-138 | q-values are Benjamini-Hochberg of the p-values, one per test; the kept sets are the q filter of the p-passing sets; the ranking sorts them by q |
| Expander.QValuesBounded | python-flask-server/swagger_server/controllers/hypergeometric_enrichment_expander.py:124-133 | one q-value per test, between that test's p-value and 1 |
| Expander.EnrichRanked | python-flask-server/swagger_server/controllers/hypergeometric_enrichment_expander.py:138 | the ranked sets are the kept ones, ascending in q, ties in insertion order |
| Expander.ExpandAppends | python-flask-server/swagger_server/controllers/hypergeometric_enrichment_expander.py:138-170 | on success: input genes an unchanged prefix, appended ids distinct and not input keys, each gene from the first ranked set containing its member, every ranked member a key or appended |
| Expander.TestGeneSets | python-flask-server/swagger_server/controllers/hypergeometric_enrichment_expander.py:114-131 | the loop fails exactly when the testing specification does, with the same id; otherwise it returns the id list, p-value list, `gene_set_pvalues` and last odds ratio the specification gives |
| Expander.KeepSignificant | python-flask-server/swagger_server/controllers/hypergeometric_enrichment_expander.py:134-136 | the loop computes the q filter |
| Expander.AppendGenes | python-flask-server/swagger_server/controllers/hypergeometric_enrichment_expander.py:138-169 | the query's genes grow by exactly the specified appended genes; the controls do not change |
| Expander.Expand | python-flask-server/swagger_server/controllers/hypergeometric_enrichment_expander.py:76-170 | the result is ExpandSpec of the old query; on success the query's genes are the result, on failure they are unchanged |
| Transformer.PassPIff | python-flask-server/swagger_server/controllers/transformer_controller.py:101-103 | `PassP`, the p filter building the candidates: a tested set is a candidate exactly when p < max p, and every candidate is a tested set with its own members and p-value |
| Transformer.TransformSpec | python-flask-server/swagger_server/controllers/transformer_controller.py:58-130 | on success the query's genes are an unchanged prefix of the result |
| Transformer.AppendedGenes | python-flask-server/swagger_server/controllers/transformer_controller.py:105-129 | `Appended` folds `AddMember`, which tests the bare m but inserts `NCBIGene:` + m (:107-109), and `NewGene` (:109-128): every appended gene is `NewGene` of a member m of a ranked set that is not a key, with that set's id and the leftover p-value and odds ratio; conversely every member of a ranked set is an input key, an appended id, or has its prefixed form appended |
| Transformer.SharedMemberAppendedTwice | python-flask-server/swagger_server/controllers/transformer_controller.py:106-109 | two ranked sets sharing member 5 append `NCBIGene:5` twice |
| Transformer.EveryOccurrenceExact | python-flask-server/swagger_server/controllers/transformer_controller.py:105-129 | when no member carries the prefix, the appended genes are exactly one per member occurrence not among the input keys, set by set in rank order |
| Transformer.TestGeneSets | python-flask-server/swagger_server/controllers/transformer_controller.py:93-103 | the loop fails exactly when the testing specification does, with the same id; otherwise it returns the candidates and the leftover p-value and odds ratio |
| Transformer.AppendGenes | python-flask-server/swagger_server/controllers/transformer_controller.py:105-129 | the query's genes grow by exactly the specified appended genes; the controls do not change |
| Transformer.Transform | python-flask-server/swagger_server/controllers/transformer_controller.py:58-130 | the result is TransformSpec of the old query; on success the query's genes are the result, on failure they are unchanged |
| Transformer.TransformFailure | python-flask-server/swagger_server/controllers/transformer_controller.py:95-99 | the run fails exactly when some stored set's table has a negative cell, naming the first one |
| Transformer.RankStages | python-flask-server/swagger_server/controllers/transformer_controller.py:95-105 | the tests of a successful run are the testing loop's, and the ranking sorts the p-passing candidates by p |
| Transformer.CandidatesRanked | python-flask-server/swagger_server/controllers/transformer_controller.py:101-105 | the ranked candidates are ascending in p with ties in insertion order, a permutation of the candidates, and a tested set is among them exactly when p < max p |
| Transformer.TransformAppends | python-flask-server/swagger_server/controllers/transformer_controller.py:105-130 | on success the input genes are an unchanged prefix; every appended gene is the prefixed form of a ranked set's member that is not an input key; every member of a ranked set is an input key, an appended id, or has its prefixed form appended |

## Left out

- File reading, `line.strip()` and the tab split are not modelled: each gene-set line arrives already split into columns, and several files arrive as one list of lines.
- The exact test (`scipy.stats.fisher_exact`) is a parameter. Its p-value is only constrained to [0, 1] and its odds ratio not at all.
- Floating point rounding is not modelled: p-values, q-values and controls are reals.
- `correct_pvalues_for_multiple_testing` with an unrecognised correction type returns an uninitialised array. Only the three named types are modelled.
- `get_control`'s `Boolean` and `int` branches are not modelled, because every control here is a `double`. `float()` parsing of a control value is also left out: controls carry reals.
- The attributes' `source` labels are not modelled. In the transformer they are a literal string. In the expander they are the global `transformer_name`, which `expander_info` can rebind.
- The gene-set attribute's URL is not modelled. It is a function of the gene-set id, built by formatting the id into the MSigDB card address.
- The gene-set file paths are constants and are not modelled.
- `expander_info` and `transformer_info_get` are not modelled. `expander_info` reads `transformer_info.json` and rebinds the globals `transformer_name` and `control_names`. `transformer_info_get` returns a constant record and reads no file. The model takes `control_names` to be the identity map it starts as.
- Dictionaries that hold nothing the result depends on are not modelled: `gene_set_k` is only initialised, and `gene_set_odds_ratios` is written but never read. `gene_set_n_gene_list_n` is read as the fourth table cell and is modelled as the `nn` cell of `TableOf`.
- The JSON and connexion request handling in `transform_post` is not modelled; the query object arrives already built.
- setup.py is not part of this model.
- Expander.NewGene: the odds ratio it attaches is the value left over from the last test, as in the source. Nothing else is stated about the odds ratio.
- Transformer.NewGene: the p-value and odds ratio it attaches are the values left over from the last test, as in the source.
- Transformer.TransformAppends: states where each appended gene comes from and that no member of a ranked set is dropped, but not how many times a member is appended. For inputs whose members carry no prefix, EveryOccurrenceExact states the exact list.
